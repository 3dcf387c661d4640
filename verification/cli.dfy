/**
 * The `add`, `remove`, `init` and `build` commands: which tags they act
 * on, how `add` assembles its specifiers and index URLs and stops, and how
 * `remove` drops requirements by name and rewrites each file.
 */
module Cli {
  import opened Wrappers
  import opened Strings
  import opened Externals
  import opened Identity
  import opened RequirementFiles
  import opened Writer

  /** How a command ends: normally, through `ctx.abort()`, or with an exception it lets through; with the disk as left. */
  datatype Outcome = Completed(disk: Disk) | Aborted(disk: Disk) | Raised(error: Error, disk: Disk)

  /** `add` and `remove` without `-t`: the `main` tag alone. */
  function DefaultTags(tags: seq<string>): seq<string>
  {
    if tags == [] then ["main"] else tags
  }

  /** `init` without `-t`: the four standard tags. */
  function InitTags(tags: seq<string>): seq<string>
  {
    if tags == [] then ["docs", "main", "qa", "test"] else tags
  }

  /**
   * The tags `build` compiles: None when the requirements directory is
   * missing or neither `--all` nor a tag is given (it aborts); the stems of
   * the source files when only `--all` is given; the given tags otherwise.
   */
  function BuildTags(disk: Disk, directory: string, all: bool, tags: seq<string>, sourceStems: seq<string>): Option<seq<string>>
  {
    if !Exists(disk, directory) then None
    else if !all && tags == [] then None
    else if tags == [] then Some(sourceStems)
    else Some(tags)
  }

  /** The defaults apply exactly when no tag is given; given tags are used as they are, even with `--all`. */
  lemma TagDefaults(disk: Disk, directory: string, all: bool, tags: seq<string>, sourceStems: seq<string>)
    ensures tags == [] ==> DefaultTags(tags) == ["main"] && InitTags(tags) == ["docs", "main", "qa", "test"]
    ensures tags != [] ==> DefaultTags(tags) == tags && InitTags(tags) == tags
    ensures BuildTags(disk, directory, all, tags, sourceStems).None? <==> !Exists(disk, directory) || (!all && tags == [])
    ensures BuildTags(disk, directory, all, tags, sourceStems).Some? ==>
      BuildTags(disk, directory, all, tags, sourceStems).value == (if tags == [] then sourceStems else tags)
  {
  }

  /** `-e <value>` for each editable value, in order. */
  function EditableSpecifiers(editable: seq<string>): (r: seq<string>)
    ensures |r| == |editable| && forall i :: 0 <= i < |editable| ==> r[i] == "-e " + editable[i]
  {
    if editable == [] then [] else ["-e " + editable[0]] + EditableSpecifiers(editable[1..])
  }

  /** The specifiers `add` works with: the editable ones first, then the positional ones. */
  function AssembleSpecifiers(editable: seq<string>, specifiers: seq<string>): seq<string>
  {
    EditableSpecifiers(editable) + specifiers
  }

  /**
   * The editable values come first, each read back by pip as the editable
   * at that location, and the positional specifiers follow unchanged.
   */
  lemma AssembledSpecifiersLayout(env: Env, editable: seq<string>, specifiers: seq<string>)
    ensures var r := AssembleSpecifiers(editable, specifiers);
      |r| == |editable| + |specifiers| && r[|editable|..] == specifiers &&
      forall i :: 0 <= i < |editable| ==>
        StartsWith(r[i], "-e") && FromLine(env, r[i]) == Hashable(env.fromEditable(Strip(editable[i])))
  {
    var r := AssembleSpecifiers(editable, specifiers);
    forall i | 0 <= i < |editable|
      ensures StartsWith(r[i], "-e") && FromLine(env, r[i]) == Hashable(env.fromEditable(Strip(editable[i])))
    {
      assert r[i] == "-e " + editable[i];
      assert r[i][..2] == "-e";
      EditableSpacingIrrelevant(env, editable[i]);
      assert ("-e" + editable[i])[2..] == editable[i];
    }
  }

  /** `' '.join(xs)` */
  function JoinSpaced(xs: seq<string>): string
  {
    if xs == [] then [] else if |xs| == 1 then xs[0] else JoinSpaced(xs[..|xs| - 1]) + " " + xs[|xs| - 1]
  }

  /**
   * The arguments of `pip install`: the specifiers re-split as a shell
   * would, after `--pre` when asked; None when the split raises
   * `ValueError`.
   */
  function InstallArgs(env: Env, specifiers: seq<string>, pre: bool): Option<seq<string>>
  {
    match env.shlexSplit(JoinSpaced(specifiers))
    case None => None
    case Some(args) => Some((if pre then ["--pre"] else []) + args)
  }

  /** `src_dir / (tag + extension)`, the file `add` reads a tag from. */
  function SourceFile(env: Env, directory: string, sourceDir: string, extension: string, tag: string): string
  {
    env.join(env.join(directory, sourceDir), tag + extension)
  }

  /** The index URLs of every given tag whose source file exists, as pip's finder reports them. */
  function LookupIndexUrls(env: Env, disk: Disk, directory: string, sourceDir: string, extension: string, tags: seq<string>): set<string>
  {
    if tags == [] then {}
    else
      var filename := SourceFile(env, directory, sourceDir, extension, tags[|tags| - 1]);
      LookupIndexUrls(env, disk, directory, sourceDir, extension, tags[..|tags| - 1]) +
        (if Exists(disk, filename) then set u | u in env.pipParse(disk, filename).indexUrls else {})
  }

  /** A URL is looked up exactly when some given tag's existing source file names it; missing files add nothing. */
  lemma {:induction false} LookupIndexUrlsMembers(env: Env, disk: Disk, directory: string, sourceDir: string, extension: string,
                                                  tags: seq<string>, u: string)
    ensures u in LookupIndexUrls(env, disk, directory, sourceDir, extension, tags) <==>
      exists i :: 0 <= i < |tags| && Exists(disk, SourceFile(env, directory, sourceDir, extension, tags[i])) &&
        u in env.pipParse(disk, SourceFile(env, directory, sourceDir, extension, tags[i])).indexUrls
  {
    if tags != [] {
      var init := tags[..|tags| - 1];
      LookupIndexUrlsMembers(env, disk, directory, sourceDir, extension, init, u);
      if u in LookupIndexUrls(env, disk, directory, sourceDir, extension, init) {
        var i :| 0 <= i < |init| && Exists(disk, SourceFile(env, directory, sourceDir, extension, init[i])) &&
          u in env.pipParse(disk, SourceFile(env, directory, sourceDir, extension, init[i])).indexUrls;
        assert tags[i] == init[i];
      }
      if exists i :: 0 <= i < |tags| && Exists(disk, SourceFile(env, directory, sourceDir, extension, tags[i])) &&
          u in env.pipParse(disk, SourceFile(env, directory, sourceDir, extension, tags[i])).indexUrls {
        var i :| 0 <= i < |tags| && Exists(disk, SourceFile(env, directory, sourceDir, extension, tags[i])) &&
          u in env.pipParse(disk, SourceFile(env, directory, sourceDir, extension, tags[i])).indexUrls;
        if i < |init| {
          assert init[i] == tags[i];
        }
      }
    }
  }

  /**
   * The tag loop of `add`: each tag's source file extended in turn with the
   * same request but for the tag name. `NoCandidateFound` aborts the rest;
   * any other error escapes; what earlier tags wrote stays written.
   */
  function ExtendTags(env: Env, disk: Disk, tags: seq<string>, request: ExtendRequest): Outcome
  {
    if tags == [] then Completed(disk)
    else
      match ExtendTags(env, disk, tags[..|tags| - 1], request)
      case Completed(d) =>
        (match env.extendSourceFile(d, request.(tagName := tags[|tags| - 1]))
         case Success(d') => Completed(d')
         case Failure(e) => if e == NoCandidateFound then Aborted(d) else Raised(e, d))
      case stopped => stopped
  }

  /** The options and arguments of `add`. */
  datatype AddCommand = AddCommand(
    directory: string,
    sourceDir: string,
    extension: string,
    editable: seq<string>,
    tags: seq<string>,
    install: bool,
    pre: bool,
    resolveCanonicalNames: bool,
    resolveVersions: bool,
    specifiers: seq<string>)

  /** The request `add` passes for every tag, the lookup URLs gathered from the disk as it was before any tag was extended. */
  function AddRequest(env: Env, disk: Disk, cmd: AddCommand): ExtendRequest
  {
    ExtendRequest(cmd.directory, "", AssembleSpecifiers(cmd.editable, cmd.specifiers), cmd.extension,
                  LookupIndexUrls(env, disk, cmd.directory, cmd.sourceDir, cmd.extension, DefaultTags(cmd.tags)),
                  cmd.pre, cmd.resolveCanonicalNames, cmd.resolveVersions)
  }

  /** `add`: directory check, `pip install`, then the tag loop. */
  function AddOutcome(env: Env, disk: Disk, cmd: AddCommand): Outcome
  {
    var install := InstallArgs(env, AssembleSpecifiers(cmd.editable, cmd.specifiers), cmd.pre);
    if !Exists(disk, cmd.directory) then Aborted(disk)
    else if cmd.install && install.None? then Raised(ValueError, disk)
    else if cmd.install && !env.pipInstall(install.value) then Aborted(disk)
    else ExtendTags(env, disk, DefaultTags(cmd.tags), AddRequest(env, disk, cmd))
  }

  /** `main_add`, its two tag loops as written. */
  method MainAdd(env: Env, disk: Disk, cmd: AddCommand) returns (r: Outcome)
    ensures r == AddOutcome(env, disk, cmd)
  {
    if !Exists(disk, cmd.directory) {
      return Aborted(disk);
    }
    var specifiers := EditableSpecifiers(cmd.editable) + cmd.specifiers;
    if cmd.install {
      assert specifiers == AssembleSpecifiers(cmd.editable, cmd.specifiers);
      var split := env.shlexSplit(JoinSpaced(specifiers));
      if split.None? {
        return Raised(ValueError, disk);
      }
      var pipArgs := split.value;
      assert [] + pipArgs == pipArgs;
      if cmd.pre {
        pipArgs := ["--pre"] + pipArgs;
      }
      assert Some(pipArgs) == InstallArgs(env, AssembleSpecifiers(cmd.editable, cmd.specifiers), cmd.pre);
      if !env.pipInstall(pipArgs) {
        return Aborted(disk);
      }
    }
    var tags := cmd.tags;
    if tags == [] {
      tags := ["main"];
    }
    var lookupIndexUrls := CollectIndexUrls(env, disk, cmd.directory, cmd.sourceDir, cmd.extension, tags);
    var request := ExtendRequest(cmd.directory, "", specifiers, cmd.extension, lookupIndexUrls,
                                 cmd.pre, cmd.resolveCanonicalNames, cmd.resolveVersions);
    assert request == AddRequest(env, disk, cmd);
    r := ExtendAll(env, disk, tags, request);
  }

  /** The first tag loop of `main_add`: the index URLs of every tag's existing source file, gathered into one set. */
  method CollectIndexUrls(env: Env, disk: Disk, directory: string, sourceDir: string, extension: string, tags: seq<string>)
    returns (urls: set<string>)
    ensures urls == LookupIndexUrls(env, disk, directory, sourceDir, extension, tags)
  {
    var srcDir := env.join(directory, sourceDir);
    urls := {};
    for i := 0 to |tags|
      invariant urls == LookupIndexUrls(env, disk, directory, sourceDir, extension, tags[..i])
    {
      assert tags[..i + 1][..i] == tags[..i];
      var filename := env.join(srcDir, tags[i] + extension);
      if !Exists(disk, filename) {
        continue;
      }
      var parsed := env.pipParse(disk, filename);
      urls := urls + set u | u in parsed.indexUrls;
    }
    assert tags[..|tags|] == tags;
  }

  /**
   * The second tag loop of `main_add`: extends each tag's source file in
   * turn; `NoCandidateFound` aborts, any other error escapes, and either
   * way the disk keeps what the earlier tags wrote.
   */
  method ExtendAll(env: Env, disk: Disk, tags: seq<string>, request: ExtendRequest) returns (r: Outcome)
    ensures r == ExtendTags(env, disk, tags, request)
  {
    var current := disk;
    for i := 0 to |tags|
      invariant ExtendTags(env, disk, tags[..i], request) == Completed(current)
    {
      assert tags[..i + 1][..i] == tags[..i];
      var extended := env.extendSourceFile(current, request.(tagName := tags[i]));
      if extended.Failure? {
        ExtendTagsStopSticks(env, disk, tags, request, i + 1);
        if extended.error == NoCandidateFound {
          return Aborted(current);
        }
        return Raised(extended.error, current);
      }
      current := extended.value;
    }
    assert tags[..|tags|] == tags;
    return Completed(current);
  }

  /** Once the loop has stopped, later tags change nothing. */
  lemma {:induction false} ExtendTagsStopSticks(env: Env, disk: Disk, tags: seq<string>, request: ExtendRequest, k: nat)
    requires k <= |tags| && !ExtendTags(env, disk, tags[..k], request).Completed?
    ensures ExtendTags(env, disk, tags, request) == ExtendTags(env, disk, tags[..k], request)
    decreases |tags| - k
  {
    if k < |tags| {
      assert tags[..k + 1][..k] == tags[..k];
      ExtendTagsStopSticks(env, disk, tags, request, k + 1);
    } else {
      assert tags[..k] == tags;
    }
  }

  /**
   * A loop that does not complete stopped at one tag: every tag before it
   * was extended and stays extended, the disk is the one they left, and the
   * error decides between an abort (`NoCandidateFound`) and an escape.
   */
  lemma {:induction false} ExtendTagsStopsAtFirstFailure(env: Env, disk: Disk, tags: seq<string>, request: ExtendRequest)
    requires !ExtendTags(env, disk, tags, request).Completed?
    ensures exists k :: (0 <= k < |tags| && ExtendTags(env, disk, tags[..k], request) == Completed(ExtendTags(env, disk, tags, request).disk) &&
      env.extendSourceFile(ExtendTags(env, disk, tags, request).disk, request.(tagName := tags[k])).Failure? &&
      (ExtendTags(env, disk, tags, request).Aborted? <==>
        env.extendSourceFile(ExtendTags(env, disk, tags, request).disk, request.(tagName := tags[k])).error == NoCandidateFound) &&
      (ExtendTags(env, disk, tags, request).Raised? ==>
        ExtendTags(env, disk, tags, request).error ==
          env.extendSourceFile(ExtendTags(env, disk, tags, request).disk, request.(tagName := tags[k])).error))
  {
    var init := tags[..|tags| - 1];
    if !ExtendTags(env, disk, init, request).Completed? {
      ExtendTagsStopsAtFirstFailure(env, disk, init, request);
      var k :| 0 <= k < |init| && ExtendTags(env, disk, init[..k], request) == Completed(ExtendTags(env, disk, init, request).disk) &&
        env.extendSourceFile(ExtendTags(env, disk, init, request).disk, request.(tagName := init[k])).Failure? &&
        (ExtendTags(env, disk, init, request).Aborted? <==>
          env.extendSourceFile(ExtendTags(env, disk, init, request).disk, request.(tagName := init[k])).error == NoCandidateFound) &&
        (ExtendTags(env, disk, init, request).Raised? ==>
          ExtendTags(env, disk, init, request).error ==
            env.extendSourceFile(ExtendTags(env, disk, init, request).disk, request.(tagName := init[k])).error);
      assert init[..k] == tags[..k] && init[k] == tags[k];
    } else {
      assert tags[..|tags| - 1] == init;
    }
  }

  /** Without `-t`, `add` acts exactly as with `-t main`. */
  lemma AddDefaultTagIsMain(env: Env, disk: Disk, cmd: AddCommand)
    requires cmd.tags == []
    ensures AddOutcome(env, disk, cmd) == AddOutcome(env, disk, cmd.(tags := ["main"]))
  {
  }

  /**
   * `add` only ever changes files through the tag loop: it aborts before
   * touching the disk when the requirements directory is missing or
   * `pip install` fails.
   */
  lemma AddAbortsEarlyUnchanged(env: Env, disk: Disk, cmd: AddCommand)
    requires var install := InstallArgs(env, AssembleSpecifiers(cmd.editable, cmd.specifiers), cmd.pre);
      !Exists(disk, cmd.directory) || (cmd.install && install.Some? && !env.pipInstall(install.value))
    ensures AddOutcome(env, disk, cmd) == Aborted(disk)
  {
  }

  /**
   * Specifiers that `shlex.split` cannot split (an unbalanced quote, a
   * trailing backslash) make `add --install` raise `ValueError` before any
   * file changes; without `--install` they are never split.
   */
  lemma AddUnsplittableRaisesUnchanged(env: Env, disk: Disk, cmd: AddCommand)
    requires Exists(disk, cmd.directory)
    requires env.shlexSplit(JoinSpaced(AssembleSpecifiers(cmd.editable, cmd.specifiers))).None?
    ensures cmd.install ==> AddOutcome(env, disk, cmd) == Raised(ValueError, disk)
    ensures !cmd.install ==> AddOutcome(env, disk, cmd) == ExtendTags(env, disk, DefaultTags(cmd.tags), AddRequest(env, disk, cmd))
  {
  }

  // ---------------------------------------------------------------- remove

  /** The requirements whose name differs from `name`, in order; a missing name only matches a missing name. */
  function WithoutName(reqs: seq<Ireq>, name: Option<string>): seq<Ireq>
  {
    if reqs == [] then []
    else WithoutName(reqs[..|reqs| - 1], name) + (if reqs[|reqs| - 1].data.name == name then [] else [reqs[|reqs| - 1]])
  }

  /** What is left once every specifier's name has been removed, specifier by specifier. */
  function RemoveNames(env: Env, reqs: seq<Ireq>, specifiers: seq<string>): seq<Ireq>
  {
    if specifiers == [] then reqs
    else WithoutName(RemoveNames(env, reqs, specifiers[..|specifiers| - 1]), FromLine(env, specifiers[|specifiers| - 1]).data.name)
  }

  /** A requirement survives dropping a name exactly when it was there and has another name. */
  lemma {:induction false} WithoutNameMember(reqs: seq<Ireq>, name: Option<string>, y: Ireq)
    ensures y in WithoutName(reqs, name) <==> y in reqs && y.data.name != name
  {
    if reqs != [] {
      WithoutNameMember(reqs[..|reqs| - 1], name, y);
      assert reqs == reqs[..|reqs| - 1] + [reqs[|reqs| - 1]];
    }
  }

  /** Dropping a name keeps exactly the requirements with another name, and never adds any. */
  lemma {:induction false} WithoutNameMembers(reqs: seq<Ireq>, name: Option<string>)
    ensures forall y :: y in WithoutName(reqs, name) <==> y in reqs && y.data.name != name
    ensures |WithoutName(reqs, name)| <= |reqs|
  {
    forall y
      ensures y in WithoutName(reqs, name) <==> y in reqs && y.data.name != name
    {
      WithoutNameMember(reqs, name, y);
    }
    if reqs != [] {
      WithoutNameMembers(reqs[..|reqs| - 1], name);
    }
  }

  /** Nothing to drop leaves the requirements as they are, order included. */
  lemma {:induction false} WithoutAbsentName(reqs: seq<Ireq>, name: Option<string>)
    requires forall y :: y in reqs ==> y.data.name != name
    ensures WithoutName(reqs, name) == reqs
  {
    if reqs != [] {
      WithoutAbsentName(reqs[..|reqs| - 1], name);
      assert reqs == reqs[..|reqs| - 1] + [reqs[|reqs| - 1]];
    }
  }

  /**
   * `remove` drops exactly the requirements whose name is the name of one
   * of the specifiers; the others are kept.
   */
  lemma RemoveNamesMembers(env: Env, reqs: seq<Ireq>, specifiers: seq<string>)
    ensures forall y :: y in RemoveNames(env, reqs, specifiers) <==>
      y in reqs && forall s :: s in specifiers ==> y.data.name != FromLine(env, s).data.name
  {
    forall y
      ensures y in RemoveNames(env, reqs, specifiers) <==>
        y in reqs && forall s :: s in specifiers ==> y.data.name != FromLine(env, s).data.name
    {
      RemoveNamesMember(env, reqs, specifiers, y);
    }
  }

  /** `RemoveNamesMembers` for one requirement, by induction on the specifiers. */
  lemma {:induction false} RemoveNamesMember(env: Env, reqs: seq<Ireq>, specifiers: seq<string>, y: Ireq)
    ensures y in RemoveNames(env, reqs, specifiers) <==>
      y in reqs && forall s :: s in specifiers ==> y.data.name != FromLine(env, s).data.name
  {
    if specifiers != [] {
      var init := specifiers[..|specifiers| - 1];
      var last := specifiers[|specifiers| - 1];
      var prev := RemoveNames(env, reqs, init);
      RemoveNamesMember(env, reqs, init, y);
      WithoutNameMember(prev, FromLine(env, last).data.name, y);
      assert specifiers == init + [last];
    }
  }

  function RemoveHeader(env: Env, v: Loaded, timestamp: string): string
  {
    env.sourceHeader(HeaderFields(IndexUrlOf(v.indexUrls), ExtraIndexUrlsOf(v.indexUrls), Paths(v.cfiles), Paths(v.rfiles), timestamp))
  }

  /** One tag of `remove`: a missing file is skipped; an existing one is loaded, filtered and rewritten. */
  function RemoveFromTag(env: Env, disk: Disk, filename: string, specifiers: seq<string>, budget: nat, timestamp: string): Result<Disk, Error>
  {
    if !Exists(disk, filename) then Success(disk)
    else
      match LoadFile(env, disk, filename, budget)
      case Failure(e) => Failure(e)
      case Success(v) => Written(env, disk, filename, RemoveNames(env, v.requirements, specifiers), Some(RemoveHeader(env, v, timestamp)))
  }

  /** The options and arguments of `remove`. */
  datatype RemoveCommand = RemoveCommand(directory: string, extension: string, tags: seq<string>, specifiers: seq<string>)

  /** The tag loop of `remove`; the i-th tag's header is stamped with `clock(i)`. */
  function RemoveTags(env: Env, disk: Disk, directory: string, extension: string, specifiers: seq<string>, tags: seq<string>,
                      budget: nat, clock: nat -> string): Outcome
  {
    if tags == [] then Completed(disk)
    else
      match RemoveTags(env, disk, directory, extension, specifiers, tags[..|tags| - 1], budget, clock)
      case Completed(d) =>
        (match RemoveFromTag(env, d, env.buildFilename(directory, tags[|tags| - 1], extension), specifiers,
                             budget, clock(|tags| - 1))
         case Success(d') => Completed(d')
         case Failure(e) => Raised(e, d))
      case stopped => stopped
  }

  /** `remove`: directory check, then the tag loop. */
  function RemoveOutcome(env: Env, disk: Disk, cmd: RemoveCommand, budget: nat, clock: nat -> string): Outcome
  {
    if !Exists(disk, cmd.directory) then Aborted(disk)
    else RemoveTags(env, disk, cmd.directory, cmd.extension, cmd.specifiers, DefaultTags(cmd.tags), budget, clock)
  }

  /** The paths of the given file objects, `str` of each. */
  function Filenames(fs: seq<RequirementFile>): seq<string>
  {
    if fs == [] then [] else [fs[0].filename] + Filenames(fs[1..])
  }

  lemma {:induction false} FilenamesArePaths(fs: seq<RequirementFile>, vs: seq<Loaded>)
    requires ShowsAll(fs, vs)
    ensures Filenames(fs) == Paths(vs)
  {
    if fs != [] {
      assert Shows(fs[0], vs[0]);
      assert ShowsAll(fs[1..], vs[1..]) by {
        forall i | 0 <= i < |fs[1..]| ensures Shows(fs[1..][i], vs[1..][i]) {
          assert fs[1..][i] == fs[i + 1] && vs[1..][i] == vs[i + 1];
        }
      }
      FilenamesArePaths(fs[1..], vs[1..]);
    }
  }

  /** The inner loop of `main_remove`, as intended: every requirement with the target's name goes, the rest stay in order. */
  method DropName(items: seq<Ireq>, target: Option<string>) returns (kept: seq<Ireq>)
    ensures kept == WithoutName(items, target)
  {
    kept := [];
    for j := 0 to |items|
      invariant kept == WithoutName(items[..j], target)
    {
      assert items[..j + 1][..j] == items[..j];
      if items[j].data.name != target {
        kept := kept + [items[j]];
      }
    }
    assert items[..|items|] == items;
  }

  /** One tag of `main_remove`: open the file, drop each specifier's name from its requirements, rewrite it. */
  method RemoveFromFile(env: Env, disk: Disk, filename: string, specifiers: seq<string>, budget: nat, timestamp: string)
    returns (r: Result<Disk, Error>)
    ensures r == RemoveFromTag(env, disk, filename, specifiers, budget, timestamp)
  {
    if !Exists(disk, filename) {
      return Success(disk);
    }
    var loaded := RequirementFile.Open(env, disk, filename, budget);
    if loaded.Failure? {
      return Failure(loaded.error);
    }
    var reqFile := loaded.value;
    ghost var v := LoadFile(env, disk, filename, budget).value;
    var cfiles, rfiles := reqFile.nestedCfiles, reqFile.nestedRfiles;
    FilenamesArePaths(cfiles, v.cfiles);
    FilenamesArePaths(rfiles, v.rfiles);
    var indexUrls := reqFile.indexUrls;
    for k := 0 to |specifiers|
      invariant reqFile.requirements == RemoveNames(env, v.requirements, specifiers[..k])
      invariant reqFile.indexUrls == indexUrls && reqFile.nestedCfiles == cfiles && reqFile.nestedRfiles == rfiles
    {
      assert specifiers[..k + 1][..k] == specifiers[..k];
      var target := FromLine(env, specifiers[k]).data.name;
      reqFile.requirements := DropName(reqFile.requirements, target);
    }
    assert specifiers[..|specifiers|] == specifiers;
    var header := env.sourceHeader(HeaderFields(reqFile.IndexUrl(), reqFile.ExtraIndexUrls(),
                                                Filenames(reqFile.nestedCfiles), Filenames(reqFile.nestedRfiles), timestamp));
    assert header == RemoveHeader(env, v, timestamp);
    r := WriteRequirements(env, disk, filename, reqFile.requirements, None, None, Some(header));
  }

  /** `main_remove`, with the inner removal loop as intended (`DropName`). */
  method MainRemove(env: Env, disk: Disk, cmd: RemoveCommand, budget: nat, clock: nat -> string) returns (r: Outcome)
    ensures r == RemoveOutcome(env, disk, cmd, budget, clock)
  {
    if !Exists(disk, cmd.directory) {
      return Aborted(disk);
    }
    var tags := cmd.tags;
    if tags == [] {
      tags := ["main"];
    }
    r := RemoveAll(env, disk, cmd.directory, cmd.extension, cmd.specifiers, tags, budget, clock);
  }

  /** The tag loop of `main_remove`: each tag's file rewritten in turn; the first error escapes. */
  method RemoveAll(env: Env, disk: Disk, directory: string, extension: string, specifiers: seq<string>, tags: seq<string>,
                   budget: nat, clock: nat -> string) returns (r: Outcome)
    ensures r == RemoveTags(env, disk, directory, extension, specifiers, tags, budget, clock)
  {
    var current := disk;
    for i := 0 to |tags|
      invariant RemoveTags(env, disk, directory, extension, specifiers, tags[..i], budget, clock) == Completed(current)
    {
      var filename := env.buildFilename(directory, tags[i], extension);
      var step := RemoveFromFile(env, current, filename, specifiers, budget, clock(i));
      RemoveTagsStep(env, disk, directory, extension, specifiers, tags, budget, clock, i, current);
      if step.Failure? {
        RemoveTagsStopSticks(env, disk, directory, extension, specifiers, tags, budget, clock, i + 1);
        return Raised(step.error, current);
      }
      current := step.value;
    }
    assert tags[..|tags|] == tags;
    return Completed(current);
  }

  /** One more tag: the loop goes on with what that tag's rewrite leaves, or stops with its error. */
  lemma RemoveTagsStep(env: Env, disk: Disk, directory: string, extension: string, specifiers: seq<string>,
                       tags: seq<string>, budget: nat, clock: nat -> string, i: nat, current: Disk)
    requires i < |tags| && RemoveTags(env, disk, directory, extension, specifiers, tags[..i], budget, clock) == Completed(current)
    ensures var step := RemoveFromTag(env, current, env.buildFilename(directory, tags[i], extension), specifiers, budget, clock(i));
      RemoveTags(env, disk, directory, extension, specifiers, tags[..i + 1], budget, clock) ==
        if step.Success? then Completed(step.value) else Raised(step.error, current)
  {
    assert tags[..i + 1][..i] == tags[..i];
  }

  lemma {:induction false} RemoveTagsStopSticks(env: Env, disk: Disk, directory: string, extension: string, specifiers: seq<string>,
                                                tags: seq<string>, budget: nat, clock: nat -> string, k: nat)
    requires k <= |tags| && !RemoveTags(env, disk, directory, extension, specifiers, tags[..k], budget, clock).Completed?
    ensures RemoveTags(env, disk, directory, extension, specifiers, tags, budget, clock) ==
            RemoveTags(env, disk, directory, extension, specifiers, tags[..k], budget, clock)
    decreases |tags| - k
  {
    if k < |tags| {
      assert tags[..k + 1][..k] == tags[..k];
      RemoveTagsStopSticks(env, disk, directory, extension, specifiers, tags, budget, clock, k + 1);
    } else {
      assert tags[..k] == tags;
    }
  }

  /** Without `-t`, `remove` acts exactly as with `-t main`. */
  lemma RemoveDefaultTagIsMain(env: Env, disk: Disk, cmd: RemoveCommand, budget: nat, clock: nat -> string)
    requires cmd.tags == []
    ensures RemoveOutcome(env, disk, cmd, budget, clock) == RemoveOutcome(env, disk, cmd.(tags := ["main"]), budget, clock)
  {
  }

  /** A tag whose file does not exist is skipped: nothing is written. */
  lemma RemoveSkipsMissingFile(env: Env, disk: Disk, filename: string, specifiers: seq<string>, budget: nat, timestamp: string)
    requires !Exists(disk, filename)
    ensures RemoveFromTag(env, disk, filename, specifiers, budget, timestamp) == Success(disk)
  {
  }

  /**
   * Rewriting an existing file changes that file alone, and what it writes
   * keeps the file's index URLs (the primary one and the extras together
   * are all of them, in order) and nested files: only the requirements
   * differ, and those lose exactly the named ones.
   */
  lemma RemoveRewritesOnlyRequirements(env: Env, disk: Disk, filename: string, specifiers: seq<string>, budget: nat, timestamp: string)
    requires Exists(disk, filename)
    requires RemoveFromTag(env, disk, filename, specifiers, budget, timestamp).Success?
    ensures LoadFile(env, disk, filename, budget).Success?
    ensures var v := LoadFile(env, disk, filename, budget).value;
      var kept := RemoveNames(env, v.requirements, specifiers);
      var d := RemoveFromTag(env, disk, filename, specifiers, budget, timestamp).value;
      RequirementsText(env, kept, Some(RemoveHeader(env, v, timestamp))).Success? &&
      d.files == disk.files[filename := RequirementsText(env, kept, Some(RemoveHeader(env, v, timestamp))).value] &&
      d.dirs == disk.dirs &&
      (if IndexUrlOf(v.indexUrls).Some? then [IndexUrlOf(v.indexUrls).value] else []) + ExtraIndexUrlsOf(v.indexUrls) == v.indexUrls &&
      forall y :: y in kept <==> y in v.requirements && forall s :: s in specifiers ==> y.data.name != FromLine(env, s).data.name
  {
    var v := LoadFile(env, disk, filename, budget).value;
    IndexUrlViewsPartition(v.indexUrls);
    RemoveNamesMembers(env, v.requirements, specifiers);
  }

  /**
   * `main_remove` as written removes from the ordered set while iterating
   * over it: the iterator's position moves on past the element that slid
   * into the removed one's place, so that element is never examined.
   */
  function RemoveWhileIterating(items: seq<Ireq>, name: Option<string>, position: nat): seq<Ireq>
    decreases |items|, |items| - position
  {
    if position >= |items| then items
    else if items[position].data.name == name then RemoveWhileIterating(items[..position] + items[position + 1..], name, position + 1)
    else RemoveWhileIterating(items, name, position + 1)
  }

  /**
   * Two adjacent requirements of the same name, say `foo==1.0` and
   * `foo[bar]`: as written, removing `foo` leaves the second one behind,
   * while dropping every requirement of that name leaves none.
   */
  lemma RemoveWhileIteratingSkipsNeighbour()
    ensures var first := Hashable(InstallRequirement(Some("foo"), false, None, "", "==1.0"));
      var second := Hashable(InstallRequirement(Some("foo"), false, None, "", "[bar]"));
      RemoveWhileIterating([first, second], Some("foo"), 0) == [second] &&
      WithoutName([first, second], Some("foo")) == []
  {
    var first := Hashable(InstallRequirement(Some("foo"), false, None, "", "==1.0"));
    var second := Hashable(InstallRequirement(Some("foo"), false, None, "", "[bar]"));
    var items := [first, second];
    assert items[..0] + items[1..] == [second];
    assert RemoveWhileIterating([second], Some("foo"), 1) == [second];
    assert items[..1] == [first];
    assert WithoutName([first], Some("foo")) == [];
  }
}
