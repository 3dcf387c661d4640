/**
 * `PyPiHtmlParser`: a three-state machine over the events of an index's
 * project-list page, and `get_canonical_name`, which runs one parser per
 * index URL to learn how the index spells a package name.
 */
module IndexScanner {
  import opened Wrappers
  import opened Strings
  import opened Externals

  /** `PyPiHtmlParserState` */
  datatype ParserState = Waiting | CollectingPackageName | FoundPackageName

  /** The parser's mutable attributes, as a value. */
  datatype Scan = Scan(state: ParserState, collected: seq<string>)

  /** The URL pip calls `PyPI.simple_url`. */
  const PyPISimpleUrl: string := "https://pypi.python.org/simple"

  /** The search as the parser stores it: `search.lower()`, or None. */
  function LowerSearch(search: Option<string>): Option<string>
  {
    if search.Some? then Some(Lower(search.value)) else None
  }

  /** One handler call: `handle_starttag`, `handle_endtag` or `handle_data`. */
  function Step(search: Option<string>, s: Scan, e: HtmlEvent): Scan
  {
    match e
    case StartTag(tag) =>
      if tag == "a" then s.(state := CollectingPackageName) else s
    case EndTag(tag) =>
      if tag == "a" && s.state == CollectingPackageName then s.(state := Waiting) else s
    case Data(text) =>
      if s.state == CollectingPackageName then
        Scan(if search.Some? && Lower(text) == search.value then FoundPackageName else CollectingPackageName,
             s.collected + [text])
      else s
  }

  /** The handler calls for a sequence of events, in order. */
  function FeedEvents(search: Option<string>, s: Scan, events: seq<HtmlEvent>): Scan
  {
    if events == [] then s
    else Step(search, FeedEvents(search, s, events[..|events| - 1]), events[|events| - 1])
  }

  /** The found state always has a last collected name equal to the search, lower-cased. */
  ghost predicate Consistent(search: Option<string>, s: Scan)
  {
    s.state == FoundPackageName ==>
      |s.collected| > 0 && search.Some? && Lower(s.collected[|s.collected| - 1]) == search.value
  }

  lemma StepConsistent(search: Option<string>, s: Scan, e: HtmlEvent)
    requires Consistent(search, s)
    ensures Consistent(search, Step(search, s, e))
  {
  }

  /** Every event sequence keeps the found state consistent. */
  lemma {:induction false} FeedConsistent(search: Option<string>, s: Scan, events: seq<HtmlEvent>)
    requires Consistent(search, s)
    ensures Consistent(search, FeedEvents(search, s, events))
  {
    if events != [] {
      FeedConsistent(search, s, events[..|events| - 1]);
      StepConsistent(search, FeedEvents(search, s, events[..|events| - 1]), events[|events| - 1]);
    }
  }

  /**
   * Collected names only grow, and every added name is the text of a data
   * event; while no anchor is open, no data is recorded at all.
   */
  lemma {:induction false} FeedOnlyAppendsData(search: Option<string>, s: Scan, events: seq<HtmlEvent>)
    ensures var r := FeedEvents(search, s, events);
      |s.collected| <= |r.collected| && r.collected[..|s.collected|] == s.collected &&
      forall k :: |s.collected| <= k < |r.collected| ==> Data(r.collected[k]) in events
    ensures (forall e :: e in events ==> !e.StartTag?) && s.state != CollectingPackageName ==>
      FeedEvents(search, s, events) == s
  {
    if events != [] {
      var init := events[..|events| - 1];
      FeedOnlyAppendsData(search, s, init);
      var m := FeedEvents(search, s, init);
      var r := FeedEvents(search, s, events);
      assert r == Step(search, m, events[|events| - 1]);
      forall k | |s.collected| <= k < |r.collected| ensures Data(r.collected[k]) in events {
        if k < |m.collected| {
          assert r.collected[k] == m.collected[k];
          assert Data(m.collected[k]) in init;
        } else {
          assert events[|events| - 1] == Data(r.collected[k]);
        }
      }
      if (forall e :: e in events ==> !e.StartTag?) && s.state != CollectingPackageName {
        assert forall e :: e in init ==> e in events;
      }
    }
  }

  /** `PyPiHtmlParser`: the handlers update `state` and `collected_packages` in place. */
  class PyPiHtmlParser {
    const search: Option<string>
    var state: ParserState
    var collectedPackages: seq<string>

    function View(): Scan
      reads this
    {
      Scan(state, collectedPackages)
    }

    constructor (search: Option<string>)
      ensures this.search == LowerSearch(search)
      ensures state == Waiting && collectedPackages == []
    {
      this.search := LowerSearch(search);
      state := Waiting;
      collectedPackages := [];
    }

    method HandleStartTag(tag: string)
      modifies this
      ensures View() == Step(search, old(View()), StartTag(tag))
    {
      if tag == "a" {
        state := CollectingPackageName;
      }
    }

    method HandleEndTag(tag: string)
      modifies this
      ensures View() == Step(search, old(View()), EndTag(tag))
    {
      if tag == "a" && state == CollectingPackageName {
        state := Waiting;
      }
    }

    method HandleData(data: string)
      modifies this
      ensures View() == Step(search, old(View()), Data(data))
    {
      if state == CollectingPackageName {
        collectedPackages := collectedPackages + [data];
        if search.Some? && Lower(data) == search.value {
          state := FoundPackageName;
        }
      }
    }

    /** `feed`: dispatches the events of one line to the handlers. */
    method Feed(events: seq<HtmlEvent>)
      modifies this
      ensures View() == FeedEvents(search, old(View()), events)
    {
      for k := 0 to |events|
        invariant View() == FeedEvents(search, old(View()), events[..k])
      {
        assert events[..k + 1][..k] == events[..k];
        match events[k]
        case StartTag(tag) => HandleStartTag(tag);
        case EndTag(tag) => HandleEndTag(tag);
        case Data(text) => HandleData(text);
      }
      assert events[..|events|] == events;
    }
  }

  /** The name found while streaming `lines` into a parser in state `s`, checked after each line. */
  function ScanLines(search: Option<string>, s: Scan, lines: seq<seq<HtmlEvent>>): Option<string>
    requires Consistent(search, s)
    decreases |lines|
  {
    if lines == [] then None
    else
      var s' := FeedEvents(search, s, lines[0]);
      FeedConsistent(search, s, lines[0]);
      if s'.state == FoundPackageName then Some(s'.collected[|s'.collected| - 1])
      else ScanLines(search, s', lines[1..])
  }

  /** The index URLs tried in order, a fresh parser for each. */
  function FirstFound(pages: string -> seq<seq<HtmlEvent>>, search: Option<string>, urls: seq<string>): Result<string, Error>
  {
    if urls == [] then Failure(DistributionNotFound)
    else
      match ScanLines(search, Scan(Waiting, []), pages(urls[0]))
      case Some(name) => Success(name)
      case None => FirstFound(pages, search, urls[1..])
  }

  /** `get_canonical_name(package_name, index_urls)`; no URL means the PyPI simple index. */
  function CanonicalName(pages: string -> seq<seq<HtmlEvent>>, packageName: Option<string>, indexUrls: seq<string>): Result<string, Error>
  {
    FirstFound(pages, LowerSearch(packageName), if indexUrls == [] then [PyPISimpleUrl] else indexUrls)
  }

  /** The loop of `get_canonical_name`, with its early return. */
  method GetCanonicalName(pages: string -> seq<seq<HtmlEvent>>, packageName: Option<string>, indexUrls: seq<string>)
    returns (r: Result<string, Error>)
    ensures r == CanonicalName(pages, packageName, indexUrls)
  {
    var urls := indexUrls;
    if urls == [] {
      urls := [PyPISimpleUrl];
    }
    var i := 0;
    while i < |urls|
      invariant 0 <= i <= |urls|
      invariant CanonicalName(pages, packageName, indexUrls) == FirstFound(pages, LowerSearch(packageName), urls[i..])
    {
      var parser := new PyPiHtmlParser(packageName);
      var lines := pages(urls[i]);
      var j := 0;
      while j < |lines|
        invariant 0 <= j <= |lines|
        invariant Consistent(parser.search, parser.View())
        invariant ScanLines(parser.search, Scan(Waiting, []), lines) == ScanLines(parser.search, parser.View(), lines[j..])
      {
        ghost var before := parser.View();
        parser.Feed(lines[j]);
        FeedConsistent(parser.search, before, lines[j]);
        if parser.state == FoundPackageName {
          return Success(parser.collectedPackages[|parser.collectedPackages| - 1]);
        }
        j := j + 1;
      }
      i := i + 1;
    }
    return Failure(DistributionNotFound);
  }

  /** A name found is the searched one up to case; with no name to search for, nothing is found. */
  lemma {:induction false} FoundNameMatchesSearch(pages: string -> seq<seq<HtmlEvent>>, packageName: Option<string>, indexUrls: seq<string>)
    ensures CanonicalName(pages, packageName, indexUrls).Success? ==>
      packageName.Some? && Lower(CanonicalName(pages, packageName, indexUrls).value) == Lower(packageName.value)
    ensures packageName.None? ==> CanonicalName(pages, packageName, indexUrls) == Failure(DistributionNotFound)
  {
    FirstFoundMatches(pages, LowerSearch(packageName), if indexUrls == [] then [PyPISimpleUrl] else indexUrls);
  }

  lemma {:induction false} FirstFoundMatches(pages: string -> seq<seq<HtmlEvent>>, search: Option<string>, urls: seq<string>)
    ensures FirstFound(pages, search, urls).Success? ==>
      search.Some? && Lower(FirstFound(pages, search, urls).value) == search.value
    ensures search.None? ==> FirstFound(pages, search, urls) == Failure(DistributionNotFound)
  {
    if urls != [] {
      ScanLinesMatches(search, Scan(Waiting, []), pages(urls[0]));
      FirstFoundMatches(pages, search, urls[1..]);
    }
  }

  lemma {:induction false} ScanLinesMatches(search: Option<string>, s: Scan, lines: seq<seq<HtmlEvent>>)
    requires Consistent(search, s)
    ensures ScanLines(search, s, lines).Some? ==> search.Some? && Lower(ScanLines(search, s, lines).value) == search.value
    decreases |lines|
  {
    if lines != [] {
      FeedConsistent(search, s, lines[0]);
      ScanLinesMatches(search, FeedEvents(search, s, lines[0]), lines[1..]);
    }
  }

  /**
   * The URLs are tried in order: the result comes from the first one whose
   * stream reaches the found state, and "not found" means none does.
   */
  lemma {:induction false} FirstFoundIsFirstMatch(pages: string -> seq<seq<HtmlEvent>>, search: Option<string>, urls: seq<string>)
    ensures FirstFound(pages, search, urls).Success? <==>
      exists i :: 0 <= i < |urls| && ScanLines(search, Scan(Waiting, []), pages(urls[i])).Some?
    ensures forall i :: (0 <= i < |urls| && ScanLines(search, Scan(Waiting, []), pages(urls[i])).Some? &&
                         forall k :: 0 <= k < i ==> ScanLines(search, Scan(Waiting, []), pages(urls[k])).None?) ==>
      FirstFound(pages, search, urls) == Success(ScanLines(search, Scan(Waiting, []), pages(urls[i])).value)
    ensures FirstFound(pages, search, urls).Failure? ==> FirstFound(pages, search, urls).error == DistributionNotFound
  {
    if urls != [] {
      FirstFoundIsFirstMatch(pages, search, urls[1..]);
      var tail := urls[1..];
      if ScanLines(search, Scan(Waiting, []), pages(urls[0])).None? {
        forall i | 0 < i < |urls| ensures urls[i] == tail[i - 1] { }
        if exists i :: 0 <= i < |urls| && ScanLines(search, Scan(Waiting, []), pages(urls[i])).Some? {
          var i :| 0 <= i < |urls| && ScanLines(search, Scan(Waiting, []), pages(urls[i])).Some?;
          assert ScanLines(search, Scan(Waiting, []), pages(tail[i - 1])).Some?;
        }
        forall i | 0 <= i < |urls| && ScanLines(search, Scan(Waiting, []), pages(urls[i])).Some? &&
          (forall k :: 0 <= k < i ==> ScanLines(search, Scan(Waiting, []), pages(urls[k])).None?)
          ensures FirstFound(pages, search, urls) == Success(ScanLines(search, Scan(Waiting, []), pages(urls[i])).value)
        {
          assert i > 0 && urls[i] == tail[i - 1];
          forall k | 0 <= k < i - 1 ensures ScanLines(search, Scan(Waiting, []), pages(tail[k])).None? {
            assert tail[k] == urls[k + 1];
          }
        }
      }
    }
  }

  /** A line holding one anchor records its text, and ends found exactly when the text matches. */
  lemma FeedAnchorLine(search: Option<string>, s: Scan, name: string)
    ensures FeedEvents(search, s, [StartTag("a"), Data(name), EndTag("a")]) ==
      Scan(if search.Some? && Lower(name) == search.value then FoundPackageName else Waiting, s.collected + [name])
  {
    var line := [StartTag("a"), Data(name), EndTag("a")];
    assert line[..3] == line && line[..2][..1] == line[..1] && line[..1][..0] == [];
    assert FeedEvents(search, s, line[..1]) == s.(state := CollectingPackageName);
  }

  /** The page `<a>Flask</a>` / `<a>Jinja2</a>` served as the default index. */
  lemma Jinja2OnDefaultIndex(pages: string -> seq<seq<HtmlEvent>>)
    requires pages(PyPISimpleUrl) == [
      [StartTag("a"), Data("Flask"), EndTag("a")],
      [StartTag("a"), Data("Jinja2"), EndTag("a")]]
    ensures CanonicalName(pages, Some("jinja2"), []) == Success("Jinja2")
    ensures CanonicalName(pages, Some("Jinja3"), []) == Failure(DistributionNotFound)
  {
    var flask, jinja2 := [StartTag("a"), Data("Flask"), EndTag("a")], [StartTag("a"), Data("Jinja2"), EndTag("a")];
    LowerOfExampleNames();
    LowerOfExampleSearches();
    assert "jinja2"[5] != "jinja3"[5] && |"flask"| != |"jinja2"|;
    var w := Scan(Waiting, []);
    assert pages(PyPISimpleUrl) == [flask, jinja2];
    TwoAnchorPage(Some("jinja2"), "Flask", "Jinja2");
    assert ScanLines(Some("jinja2"), w, pages(PyPISimpleUrl)) == Some("Jinja2");
    assert CanonicalName(pages, Some("jinja2"), []) == FirstFound(pages, Some("jinja2"), [PyPISimpleUrl]);
    TwoAnchorPage(Some("jinja3"), "Flask", "Jinja2");
    assert ScanLines(Some("jinja3"), w, pages(PyPISimpleUrl)) == None;
    assert [PyPISimpleUrl][1..] == [];
    assert CanonicalName(pages, Some("Jinja3"), []) == FirstFound(pages, Some("jinja3"), [PyPISimpleUrl]);
  }

  /** A line holding one anchor stops the scan at its text when that matches the search; otherwise scanning goes on. */
  lemma ScanAnchorLine(search: Option<string>, s: Scan, name: string, rest: seq<seq<HtmlEvent>>)
    requires Consistent(search, s)
    ensures var found := search.Some? && Lower(name) == search.value;
      var s' := Scan(Waiting, s.collected + [name]);
      Consistent(search, s') &&
      ScanLines(search, s, [[StartTag("a"), Data(name), EndTag("a")]] + rest) ==
        if found then Some(name) else ScanLines(search, s', rest)
  {
    var line := [StartTag("a"), Data(name), EndTag("a")];
    var lines := [line] + rest;
    FeedAnchorLine(search, s, name);
    assert lines[0] == line && lines[1..] == rest;
  }

  /** A page of two anchors on separate lines yields the first anchor text that matches the search, if either does. */
  lemma TwoAnchorPage(search: Option<string>, a: string, b: string)
    ensures var page := [[StartTag("a"), Data(a), EndTag("a")], [StartTag("a"), Data(b), EndTag("a")]];
      ScanLines(search, Scan(Waiting, []), page) ==
        if search.Some? && Lower(a) == search.value then Some(a)
        else if search.Some? && Lower(b) == search.value then Some(b)
        else None
  {
    var first, second := [StartTag("a"), Data(a), EndTag("a")], [StartTag("a"), Data(b), EndTag("a")];
    assert [first, second] == [first] + [second];
    assert [second] == [second] + [];
    assert Scan(Waiting, []).collected + [a] == [a];
    ScanAnchorLine(search, Scan(Waiting, []), a, [second]);
    ScanAnchorLine(search, Scan(Waiting, [a]), b, []);
    assert ScanLines(search, Scan(Waiting, [a, b]), []) == None;
  }

  /** Feeding two event sequences one after the other is feeding their concatenation. */
  lemma {:induction false} FeedEventsAppend(search: Option<string>, s: Scan, xs: seq<HtmlEvent>, ys: seq<HtmlEvent>)
    ensures FeedEvents(search, s, xs + ys) == FeedEvents(search, FeedEvents(search, s, xs), ys)
    decreases |ys|
  {
    if ys == [] {
      assert xs + ys == xs;
    } else {
      assert (xs + ys)[..|xs + ys| - 1] == xs + ys[..|ys| - 1];
      assert (xs + ys)[|xs + ys| - 1] == ys[|ys| - 1];
      FeedEventsAppend(search, s, xs, ys[..|ys| - 1]);
    }
  }

  /** The events of one line holding two anchors, `<a>first</a><a>second</a>`. */
  function TwoAnchorLine(first: string, second: string): seq<HtmlEvent>
  {
    [StartTag("a"), Data(first), EndTag("a"), StartTag("a"), Data(second), EndTag("a")]
  }

  /**
   * A line of two anchors appends both texts; the state after it reflects
   * only the second, since the found state is not sticky within a line.
   */
  lemma FeedTwoAnchorLine(search: Option<string>, s: Scan, first: string, second: string)
    ensures FeedEvents(search, s, TwoAnchorLine(first, second)) ==
      Scan(if search.Some? && Lower(second) == search.value then FoundPackageName else Waiting, s.collected + [first, second])
  {
    var one, two := [StartTag("a"), Data(first), EndTag("a")], [StartTag("a"), Data(second), EndTag("a")];
    assert TwoAnchorLine(first, second) == one + two;
    FeedEventsAppend(search, s, one, two);
    FeedAnchorLine(search, s, first);
    FeedAnchorLine(search, FeedEvents(search, s, one), second);
    assert s.collected + [first] + [second] == s.collected + [first, second];
  }

  /**
   * On a page whose one line holds two anchors, the state is checked only
   * after the whole line: the second anchor decides. A matching second
   * anchor wins over a matching first one, and a matching first anchor is
   * lost when the second does not match.
   */
  lemma SameLineSecondAnchorDecides(search: Option<string>, first: string, second: string)
    ensures ScanLines(search, Scan(Waiting, []), [TwoAnchorLine(first, second)]) ==
      if search.Some? && Lower(second) == search.value then Some(second) else None
  {
    var lines := [TwoAnchorLine(first, second)];
    FeedTwoAnchorLine(search, Scan(Waiting, []), first, second);
    assert lines[0] == TwoAnchorLine(first, second) && lines[1..] == [];
    assert Scan(Waiting, []).collected + [first, second] == [first, second];
  }

  /** `<a>Flask</a><a>flask</a>` on one line, searched for `flask`: the last match, `flask`, is returned. */
  lemma SameLineLastMatchWins()
    ensures ScanLines(Some("flask"), Scan(Waiting, []),
      [[StartTag("a"), Data("Flask"), EndTag("a"), StartTag("a"), Data("flask"), EndTag("a")]]) == Some("flask")
  {
    SameLineSecondAnchorDecides(Some("flask"), "Flask", "flask");
    assert Lower("flask") == "flask";
  }

  /** `<a>flask</a><a>other</a>` on one line, searched for `flask`: the match is passed over and nothing is found. */
  lemma SameLineMatchLost()
    ensures ScanLines(Some("flask"), Scan(Waiting, []),
      [[StartTag("a"), Data("flask"), EndTag("a"), StartTag("a"), Data("other"), EndTag("a")]]) == None
  {
    SameLineSecondAnchorDecides(Some("flask"), "flask", "other");
    assert Lower("other")[0] == 'o';
  }

  /** The lower-case forms of the names in the example index page. */
  lemma LowerOfExampleNames()
    ensures Lower("Flask") == "flask" && Lower("Jinja2") == "jinja2"
  {
  }

  /** The example searches, as the parser stores them. */
  lemma LowerOfExampleSearches()
    ensures LowerSearch(Some("jinja2")) == Some("jinja2") && LowerSearch(Some("Jinja3")) == Some("jinja3")
  {
    assert Lower("jinja2") == "jinja2";
    assert Lower("Jinja3") == "jinja3";
  }

}
