/**
 * `format_requirement` and `write_requirements`: the text of a written
 * requirements source file.
 */
module Writer {
  import opened Wrappers
  import opened Strings
  import opened Externals
  import opened Sorting
  import opened Identity

  /**
   * `format_requirement`: an editable whose source directory is relative
   * is written as `-e <dir>`; everything else goes to piptools' formatter.
   * An editable without a source directory fails reading `startswith` on
   * None.
   */
  function FormatRequirement(env: Env, ireq: Ireq): Result<string, Error>
  {
    if !ireq.data.editable then Success(env.formatRequirement(ireq.data))
    else
      match ireq.data.sourceDir
      case None => Failure(AttributeError)
      case Some(dir) =>
        if StartsWith(dir, ".") then Success("-e " + dir) else Success(env.formatRequirement(ireq.data))
  }

  /** Formatting fails exactly on an editable without a source directory; a non-editable is piptools' text. */
  lemma FormatRequirementCases(env: Env, ireq: Ireq)
    ensures FormatRequirement(env, ireq).Failure? <==> ireq.data.editable && ireq.data.sourceDir.None?
    ensures FormatRequirement(env, ireq).Failure? ==> FormatRequirement(env, ireq).error == AttributeError
    ensures !ireq.data.editable ==> FormatRequirement(env, ireq) == Success(env.formatRequirement(ireq.data))
  {
  }

  /**
   * A relative editable is written without piptools, and reading the line
   * back asks pip for the editable at that same directory.
   */
  lemma RelativeEditableReparses(env: Env, ireq: Ireq, formatter: InstallRequirement -> string)
    requires ireq.data.editable && ireq.data.sourceDir.Some? && StartsWith(ireq.data.sourceDir.value, ".")
    ensures FormatRequirement(env, ireq).Success?
    ensures FormatRequirement(env.(formatRequirement := formatter), ireq) == FormatRequirement(env, ireq)
    ensures FromLine(env, FormatRequirement(env, ireq).value) == Hashable(env.fromEditable(Strip(ireq.data.sourceDir.value)))
  {
    var dir := ireq.data.sourceDir.value;
    assert StartsWith("-e " + dir, "-e");
    EditableSpacingIrrelevant(env, dir);
    assert ("-e" + dir)[2..] == dir;
  }

  /** The header as written: only when given and non-empty. */
  function HeaderText(header: Option<string>): string
  {
    if header.Some? && header.value != [] then header.value else []
  }

  /** Each requirement formatted and followed by a newline, in order; the first failure wins. */
  function FormattedLines(env: Env, reqs: seq<Ireq>): Result<seq<string>, Error>
  {
    if reqs == [] then Success([])
    else
      match FormattedLines(env, reqs[..|reqs| - 1])
      case Failure(e) => Failure(e)
      case Success(lines) =>
        match FormatRequirement(env, reqs[|reqs| - 1])
        case Failure(e) => Failure(e)
        case Success(text) => Success(lines + [text + "\n"])
  }

  /** The text `write_requirements` leaves in the file: the header, then the requirements sorted by `str`. */
  function RequirementsText(env: Env, reqs: seq<Ireq>, header: Option<string>): Result<string, Error>
  {
    match FormattedLines(env, SortBy(reqs, StrKey(env)))
    case Failure(e) => Failure(e)
    case Success(lines) => Success(HeaderText(header) + Concat(lines))
  }

  /** The disk after writing: the file replaced as a whole, or untouched when writing fails part-way. */
  function Written(env: Env, disk: Disk, filename: string, reqs: seq<Ireq>, header: Option<string>): Result<Disk, Error>
  {
    match RequirementsText(env, reqs, header)
    case Failure(e) => Failure(e)
    case Success(text) => Success(disk.(files := disk.files[filename := text]))
  }

  /**
   * `write_requirements`: writes to a temporary file that replaces
   * `filename` only when every line was written. The index URL arguments
   * are accepted and not used.
   */
  method WriteRequirements(env: Env, disk: Disk, filename: string, requirements: seq<Ireq>,
                           indexUrl: Option<string>, extraIndexUrls: Option<seq<string>>, header: Option<string>)
    returns (r: Result<Disk, Error>)
    ensures r == Written(env, disk, filename, requirements, header)
  {
    var content: string := [];
    if header.Some? && header.value != [] {
      content := header.value;
    }
    var body := WriteLines(env, SortBy(requirements, StrKey(env)));
    if body.Failure? {
      return Failure(body.error);
    }
    content := content + body.value;
    return Success(disk.(files := disk.files[filename := content]));
  }

  /** The loop of `write_requirements`: each requirement's line in turn; the first that cannot be formatted stops it. */
  method WriteLines(env: Env, reqs: seq<Ireq>) returns (r: Result<string, Error>)
    ensures r.Failure? <==> FormattedLines(env, reqs).Failure?
    ensures r.Failure? ==> r.error == FormattedLines(env, reqs).error
    ensures r.Success? ==> r.value == Concat(FormattedLines(env, reqs).value)
  {
    var content: string := [];
    ghost var lines: seq<string> := [];
    assert reqs[..0] == [];
    for i := 0 to |reqs|
      invariant FormattedLines(env, reqs[..i]) == Success(lines)
      invariant content == Concat(lines)
    {
      var line := FormatRequirement(env, reqs[i]);
      if line.Failure? {
        FormatFails(env, reqs, i, lines, line.error);
        return Failure(line.error);
      }
      FormatStep(env, reqs, i, lines, line.value);
      content := content + line.value + "\n";
      lines := lines + [line.value + "\n"];
    }
    assert reqs[..|reqs|] == reqs;
    return Success(content);
  }

  /** One more requirement formatted: one more line, and the text grows by that line. */
  lemma FormatStep(env: Env, reqs: seq<Ireq>, i: nat, lines: seq<string>, text: string)
    requires i < |reqs| && FormattedLines(env, reqs[..i]) == Success(lines)
    requires FormatRequirement(env, reqs[i]) == Success(text)
    ensures FormattedLines(env, reqs[..i + 1]) == Success(lines + [text + "\n"])
    ensures Concat(lines + [text + "\n"]) == Concat(lines) + text + "\n"
  {
    assert reqs[..i + 1][..i] == reqs[..i];
    ConcatAppend(lines, [text + "\n"]);
  }

  /** A requirement that cannot be formatted after the earlier ones were fails the whole write with its error. */
  lemma FormatFails(env: Env, reqs: seq<Ireq>, i: nat, lines: seq<string>, e: Error)
    requires i < |reqs| && FormattedLines(env, reqs[..i]) == Success(lines)
    requires FormatRequirement(env, reqs[i]) == Failure(e)
    ensures FormattedLines(env, reqs) == Failure(e)
  {
    assert reqs[..i + 1][..i] == reqs[..i];
    assert FormattedLines(env, reqs[..i + 1]) == Failure(e);
    FormattedLinesFailureSticks(env, reqs, i + 1);
  }

  lemma {:induction false} FormattedLinesFailureSticks(env: Env, reqs: seq<Ireq>, k: nat)
    requires k <= |reqs| && FormattedLines(env, reqs[..k]).Failure?
    ensures FormattedLines(env, reqs) == FormattedLines(env, reqs[..k])
    decreases |reqs| - k
  {
    if k < |reqs| {
      assert reqs[..k + 1][..k] == reqs[..k];
      FormattedLinesFailureSticks(env, reqs, k + 1);
    } else {
      assert reqs[..k] == reqs;
    }
  }

  /** One line per requirement, in the given order, each its formatted text and a newline. */
  lemma {:induction false} FormattedLinesSpec(env: Env, reqs: seq<Ireq>)
    ensures FormattedLines(env, reqs).Success? <==> forall k :: 0 <= k < |reqs| ==> FormatRequirement(env, reqs[k]).Success?
    ensures FormattedLines(env, reqs).Success? ==>
      var lines := FormattedLines(env, reqs).value;
      |lines| == |reqs| && forall k :: 0 <= k < |reqs| ==> lines[k] == FormatRequirement(env, reqs[k]).value + "\n"
  {
    if reqs != [] {
      var init := reqs[..|reqs| - 1];
      FormattedLinesSpec(env, init);
      assert forall k :: 0 <= k < |init| ==> init[k] == reqs[k];
      if FormattedLines(env, init).Success? && FormatRequirement(env, reqs[|reqs| - 1]).Success? {
        var lines := FormattedLines(env, reqs).value;
        assert lines == FormattedLines(env, init).value + [FormatRequirement(env, reqs[|reqs| - 1]).value + "\n"];
      }
    }
  }

  /**
   * The written text is the header followed by one line per requirement,
   * the requirements being the given ones in ascending `str` order.
   */
  lemma WrittenLayout(env: Env, reqs: seq<Ireq>, header: Option<string>)
    requires RequirementsText(env, reqs, header).Success?
    ensures var sorted := SortBy(reqs, StrKey(env));
      var lines := FormattedLines(env, sorted).value;
      multiset(sorted) == multiset(reqs) && SortedBy(sorted, StrKey(env)) &&
      |lines| == |sorted| == |reqs| &&
      (forall k :: 0 <= k < |sorted| ==>
         FormatRequirement(env, sorted[k]).Success? && lines[k] == FormatRequirement(env, sorted[k]).value + "\n") &&
      RequirementsText(env, reqs, header).value == HeaderText(header) + Concat(lines)
  {
    var sorted := SortBy(reqs, StrKey(env));
    SortByPermutes(reqs, StrKey(env));
    SortBySorted(reqs, StrKey(env));
    FormattedLinesSpec(env, sorted);
    assert |sorted| == |multiset(sorted)| == |reqs|;
  }

  /**
   * Read back line by line, a file whose header is made of whole lines and
   * whose requirements format to single-line texts gives the header's lines,
   * then one line per requirement.
   */
  lemma WrittenReadsBack(env: Env, reqs: seq<Ireq>, header: Option<string>, headerLines: seq<string>)
    requires RequirementsText(env, reqs, header).Success?
    requires HeaderText(header) == Concat(headerLines) && forall i :: 0 <= i < |headerLines| ==> IsLine(headerLines[i])
    requires forall r :: r in reqs ==> FormatRequirement(env, r).Success? && '\n' !in FormatRequirement(env, r).value
    ensures SplitLines(RequirementsText(env, reqs, header).value) ==
      headerLines + FormattedLines(env, SortBy(reqs, StrKey(env))).value
  {
    var sorted := SortBy(reqs, StrKey(env));
    var lines := FormattedLines(env, sorted).value;
    WrittenLayout(env, reqs, header);
    forall k | 0 <= k < |lines| ensures IsLine(lines[k]) {
      assert sorted[k] in multiset(reqs);
      var t := FormatRequirement(env, sorted[k]).value;
      assert lines[k] == t + "\n";
      forall i | 0 <= i < |lines[k]| - 1 ensures lines[k][i] != '\n' {
        assert lines[k][i] == t[i];
      }
    }
    var all := headerLines + lines;
    ConcatAppend(headerLines, lines);
    forall i | 0 <= i < |all| ensures IsLine(all[i]) {
      if i >= |headerLines| {
        assert all[i] == lines[i - |headerLines|];
      }
    }
    SplitConcat(all);
  }

  /** Without a header, the file holds exactly the requirement lines. */
  lemma NoHeaderReadsBack(env: Env, reqs: seq<Ireq>)
    requires RequirementsText(env, reqs, None).Success?
    requires forall r :: r in reqs ==> FormatRequirement(env, r).Success? && '\n' !in FormatRequirement(env, r).value
    ensures SplitLines(RequirementsText(env, reqs, None).value) == FormattedLines(env, SortBy(reqs, StrKey(env))).value
  {
    WrittenReadsBack(env, reqs, None, []);
    assert [] + FormattedLines(env, SortBy(reqs, StrKey(env))).value == FormattedLines(env, SortBy(reqs, StrKey(env))).value;
  }

  /** An empty header and no header write the same text. */
  lemma EmptyHeaderIsNoHeader(env: Env, reqs: seq<Ireq>)
    ensures RequirementsText(env, reqs, Some([])) == RequirementsText(env, reqs, None)
  {
  }

  /** A set of hashable requirements has no two elements rendering alike, so `str` orders it without ties. */
  lemma SetIsKeyInjective(env: Env, s: seq<Ireq>)
    requires NoDupKeys(env, s) && forall i :: 0 <= i < |s| ==> s[i].Hashable?
    ensures KeyInjective(s, StrKey(env))
  {
    forall i, j | 0 <= i < |s| && 0 <= j < |s| && StrKey(env)(s[i]) == StrKey(env)(s[j]) ensures s[i] == s[j] {
      assert i == j;
    }
  }

  /**
   * The written text does not depend on the order the requirements come
   * in, as long as no two distinct ones render alike (as in a set).
   */
  lemma WrittenOrderIndependent(env: Env, a: seq<Ireq>, b: seq<Ireq>, header: Option<string>)
    requires multiset(a) == multiset(b)
    requires KeyInjective(a, StrKey(env))
    ensures RequirementsText(env, a, header) == RequirementsText(env, b, header)
    ensures forall d: Disk, f: string :: Written(env, d, f, a, header) == Written(env, d, f, b, header)
  {
    SortByOrderIndependent(a, b, StrKey(env));
  }

  /** Writing an already ordered set again writes the same text: the sorted form is canonical. */
  lemma RewritingIsIdempotent(env: Env, reqs: seq<Ireq>, header: Option<string>)
    ensures RequirementsText(env, SortBy(reqs, StrKey(env)), header) == RequirementsText(env, reqs, header)
  {
    SortBySorted(reqs, StrKey(env));
    SortBySortedIsIdentity(SortBy(reqs, StrKey(env)), StrKey(env));
  }

  /** Writing touches the one file it writes, and only on success. */
  lemma WrittenTouchesOneFile(env: Env, disk: Disk, filename: string, reqs: seq<Ireq>, header: Option<string>)
    ensures var r := Written(env, disk, filename, reqs, header);
      r.Success? ==> (r.value.dirs == disk.dirs && filename in r.value.files &&
        forall p :: p != filename ==> ((p in r.value.files <==> p in disk.files) &&
          (p in disk.files ==> r.value.files[p] == disk.files[p])))
  {
  }
}
