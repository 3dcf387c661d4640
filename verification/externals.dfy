/**
 * The collaborators reqwire calls but does not define: pip's requirement
 * objects and parsers, piptools' formatter and index lookup, the network,
 * the filesystem and the scaffold helpers. Each is a field of `Env` holding
 * a function value, so every property proved below holds for every
 * behaviour of them.
 */
module Externals {
  import opened Wrappers

  /** The parts of a pip `InstallRequirement` that reqwire reads or writes. */
  datatype InstallRequirement = InstallRequirement(
    name: Option<string>,       // `ireq.name` (`safe_name` of `req.name`), absent when pip found no requirement name
    editable: bool,             // `ireq.editable`
    sourceDir: Option<string>,  // `ireq.source_dir`
    link: string,               // `ireq.link`
    details: string)            // everything else pip keeps (specifier, markers, options)

  /** The exceptions the core raises or lets through. */
  datatype Error =
    | NoCandidateFound       // piptools: no version satisfies the specifier
    | DistributionNotFound   // pip: no index lists the package
    | IOError                // a requirements file that cannot be opened
    | RecursionError         // nested includes deeper than the interpreter allows
    | AttributeError         // an attribute read on `None`
    | ValueError             // `shlex.split` on an unbalanced quote or a trailing backslash

  /** One event of the standard HTML parser: `handle_starttag`, `handle_endtag`, `handle_data`. */
  datatype HtmlEvent = StartTag(tag: string) | EndTag(tag: string) | Data(text: string)

  /** The files (path to text) and directories that exist. */
  datatype Disk = Disk(files: map<string, string>, dirs: set<string>)

  /** `pathlib.Path(path).exists()`: true for files and directories alike. */
  predicate Exists(disk: Disk, path: string)
  {
    path in disk.files || path in disk.dirs
  }

  /** The values of the `-r` and `-c` options given on one requirements-file line. */
  datatype LineOptions = LineOptions(requirements: seq<string>, constraints: seq<string>)

  /** What pip's own requirements-file parser yields for a file, nested includes followed. */
  datatype PipParse = PipParse(requirements: seq<InstallRequirement>, indexUrls: seq<string>)

  /** What the generated source-file header is built from. */
  datatype HeaderFields = HeaderFields(
    indexUrl: Option<string>,
    extraIndexUrls: seq<string>,
    nestedCfiles: seq<string>,
    nestedRfiles: seq<string>,
    timestamp: string)

  /** The arguments `main_add` passes to the scaffold's `extend_source_file`. */
  datatype ExtendRequest = ExtendRequest(
    workingDirectory: string,
    tagName: string,
    specifiers: seq<string>,
    extension: string,
    lookupIndexUrls: set<string>,
    prereleases: bool,
    resolveCanonicalNames: bool,
    resolveVersions: bool)

  datatype Env = Env(
    /** `str(ireq)` */
    render: InstallRequirement -> string,
    /** `hash` on strings */
    strHash: string -> int,
    /** `InstallRequirement.from_line` */
    fromLine: string -> InstallRequirement,
    /** `InstallRequirement.from_editable` */
    fromEditable: string -> InstallRequirement,
    /** pip's `safe_name`, through which `InstallRequirement.name` reads `req.name` */
    safeName: string -> string,
    /** `piptools.utils.format_requirement` */
    formatRequirement: InstallRequirement -> string,
    /** `piptools.utils.is_pinned_requirement` */
    isPinned: InstallRequirement -> bool,
    /** `find_best_match(ireq, prereleases)` against the indexes named by the pip arguments; None is `NoCandidateFound` */
    findBestMatch: (InstallRequirement, bool, seq<string>) -> Option<InstallRequirement>,
    /** the listing page of an index URL, as the events of each streamed line */
    indexPage: string -> seq<seq<HtmlEvent>>,
    /** `break_args_options` followed by pip's option parser, on one line alone */
    lineOptions: string -> LineOptions,
    /** `pip.req.parse_requirements` on a file, with the index URLs its finder ends up with */
    pipParse: (Disk, string) -> PipParse,
    /** `Path.parent` */
    parent: string -> string,
    /** `Path / name` */
    join: (string, string) -> string,
    /** `Path.relative_to`; None is the `ValueError` it raises */
    relativeTo: (string, string) -> Option<string>,
    /** `shlex.split`; None is the `ValueError` it raises */
    shlexSplit: string -> Option<seq<string>>,
    /** `pip install` with the given arguments; false when pip exits with an error */
    pipInstall: seq<string> -> bool,
    /** the scaffold's `build_filename(directory, tag, extension)` */
    buildFilename: (string, string, string) -> string,
    /** the scaffold's `build_source_header` */
    sourceHeader: HeaderFields -> string,
    /** the scaffold's `extend_source_file` */
    extendSourceFile: (Disk, ExtendRequest) -> Result<Disk, Error>)
}
