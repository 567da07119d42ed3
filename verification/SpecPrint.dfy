/** The report as it is printed, a traversal's and a file's: which replacements the printed paths
    tell apart. */
module SpecPrint {
  import opened Text
  import opened SpecBumper
  import opened SpecReport
  import opened SpecFile

  /** The path as the report prints it. */
  function PropertyPath(path: seq<string>): (s: string)
  {
    "." + Join(path, '.')
  }

  /** All that is left of a path in print: its keys cut at dots. The root is left as one empty key. */
  function Pieces(path: seq<string>): (pieces: seq<string>)
  {
    SplitEach(if path == [] then [""] else path, '.')
  }

  /** Two paths are printed alike if and only if their keys cut at dots are the same. */
  lemma PrintedAlikeExactly(p: seq<string>, q: seq<string>)
    ensures PropertyPath(p) == PropertyPath(q) <==> Pieces(p) == Pieces(q)
  {
    PrintsPieces(p);
    PrintsPieces(q);
  }

  lemma PrintsPieces(p: seq<string>)
    ensures Pieces(p) == Split(PropertyPath(p)[1..], '.')
    ensures PropertyPath(p) == "." + Join(Pieces(p), '.')
  {
    var p' := if p == [] then [""] else p;
    assert Join(p', '.') == Join(p, '.') == PropertyPath(p)[1..];
    SplitOfJoin(p', '.');
    JoinOfSplit(Join(p', '.'), '.');
  }

  ghost predicate DistinctPrints(report: seq<Replacement>)
  {
    forall i, j :: 0 <= i < j < |report| ==> PropertyPath(report[i].path) != PropertyPath(report[j].path)
  }

  ghost predicate DistinctPieces(report: seq<Replacement>)
  {
    forall i, j :: 0 <= i < j < |report| ==> Pieces(report[i].path) != Pieces(report[j].path)
  }

  /** No key on a reported path is empty or has a dot. */
  ghost predicate PlainKeys(report: seq<Replacement>)
  {
    forall i :: 0 <= i < |report| ==> Free(report[i].path, '.') && "" !in report[i].path
  }

  /** The printed report tells the replacements of a document apart if and only if no two of
      their paths have the same keys cut at dots; it does when their keys are plain. */
  lemma PrintedReportExactly(lib: Library, v: string, doc: Json)
    requires WellFormed(doc) && Bump(lib, v, doc).Returned?
    ensures var report := Bump(lib, v, doc).value.report;
      && (DistinctPrints(report) <==> DistinctPieces(report))
      && (PlainKeys(report) ==> DistinctPrints(report))
  {
    var report := Bump(lib, v, doc).value.report;
    BumpPaths(lib, v, doc);
    forall i, j | 0 <= i < j < |report|
      ensures PropertyPath(report[i].path) == PropertyPath(report[j].path) <==>
              Pieces(report[i].path) == Pieces(report[j].path)
      ensures PlainKeys(report) ==> Pieces(report[i].path) != Pieces(report[j].path)
    {
      PrintedAlikeExactly(report[i].path, report[j].path);
      if PlainKeys(report) {
        PlainPieces(report[i].path);
        PlainPieces(report[j].path);
      }
    }
  }

  lemma PlainPieces(p: seq<string>)
    requires Free(p, '.') && "" !in p
    ensures Pieces(p) == if p == [] then [""] else p
  {
    SplitEachFree(if p == [] then [""] else p, '.');
  }

  // ----- a document whose printed report is ambiguous -----

  /** A reference below the key `a.b` and one below the key `b` of `a`. */
  function Clash(text: string): (doc: Json)
  {
    var ref := Node(false, [Entry("$ref", Str(text))]);
    Node(false, [Entry("a.b", ref), Entry("a", Node(false, [Entry("b", ref)]))])
  }

  lemma ClashKeys(text: string)
    ensures WellFormed(Clash(text))
    ensures PropertyPath(["a.b"]) == PropertyPath(["a", "b"])
  {
    var ref := Node(false, [Entry("$ref", Str(text))]);
    assert WellFormed(ref) && WellFormed(Node(false, [Entry("b", ref)]));
    assert |"a.b"| != |"a"|;
    assert ["a", "b"][1..] == ["b"];
  }

  /** Whatever the library and the versions, an outdated reference in these places is reported
      twice under two paths that print alike. */
  lemma ClashReported(lib: Library, v: string, text: string, after: string)
    requires text != "" && BumpRef(lib, v, text) == Returned(Some(after))
    ensures WellFormed(Clash(text)) && Bump(lib, v, Clash(text)).Returned?
    ensures Bump(lib, v, Clash(text)).value.report ==
            [Replacement(["a.b"], text, after), Replacement(["a", "b"], text, after)]
    ensures !DistinctPrints(Bump(lib, v, Clash(text)).value.report)
  {
    ClashKeys(text);
    var ref, here := Entry("$ref", Str(text)), Replacement([], text, after);
    var one, below := Entry("a.b", Node(false, [ref])), Entry("b", Node(false, [ref]));
    assert ReportedAs(lib, v, ref, here);
    assert ["b"] + [] == ["b"] && ["a.b"] + [] == ["a.b"] && ["a"] + ["b"] == ["a", "b"];
    ReportedBelow(lib, v, "a.b", ref, here);
    ReportedBelow(lib, v, "b", ref, here);
    ReportedBelow(lib, v, "a", below, Replacement(["b"], text, after));
    TwoEntries(lib, v, one, Entry("a", Node(false, [below])));
    var report := Bump(lib, v, Clash(text)).value.report;
    assert PropertyPath(report[0].path) == PropertyPath(report[1].path);
  }

  /** A library that takes off one scheme and host, and knows two versions. */
  const HOST := "https://h"
  const PLAIN := Library(
    s => if HOST <= s then Some(Url(HOST, s[|HOST|..], "", false)) else None,
    (u: Url) => u.prefix + u.pathname + u.suffix,
    s => s == "1.0.0" || s == "2.0.0")

  lemma OneSegment(version: string)
    requires '/' !in version
    ensures Split("/" + version, '/') == ["", version] && Join(["", version], '/') == "/" + version
  {
    SplitOfConcat("", version, '/');
    SplitFree(version, '/');
    assert "" + ['/'] + version == "/" + version;
    assert ["", version][1..] == [version];
  }

  lemma HostParses(path: string)
    ensures !("#" <= HOST + path) && PLAIN.parse(HOST + path) == Some(Url(HOST, path, "", false))
    ensures PLAIN.show(Url(HOST, path, "", false)) == HOST + path
  {
    assert (HOST + path)[0] == 'h' && (HOST + path)[|HOST|..] == path;
  }

  lemma VersionSwaps(old': string, new': string)
    requires PLAIN.isSemVer(old') && old' != new'
    ensures Swapped(PLAIN, new', ["", old']) == ["", new'] != ["", old']
  {
    assert ["", new'][1] != ["", old'][1];
  }

  lemma BumpsTo(lib: Library, v: string, text: string, url: Url, parts: seq<string>)
    requires !("#" <= text) && lib.parse(text) == Some(url) && !url.fixedPath
    requires Swapped(lib, v, Split(url.pathname, '/')) == parts != Split(url.pathname, '/')
    ensures BumpRef(lib, v, text) == Returned(Some(lib.show(url.(pathname := Join(parts, '/')))))
  {
  }

  lemma HostBumps(old': string, new': string)
    requires PLAIN.isSemVer(old') && old' != new' && '/' !in old' && '/' !in new'
    ensures BumpRef(PLAIN, new', HOST + ("/" + old')) == Returned(Some(HOST + ("/" + new')))
  {
    HostParses("/" + old');
    HostParses("/" + new');
    OneSegment(old');
    OneSegment(new');
    VersionSwaps(old', new');
    BumpsTo(PLAIN, new', HOST + ("/" + old'), Url(HOST, "/" + old', "", false), ["", new']);
  }

  /** The two references of the clash written out. */
  lemma PrintedPathsCollide()
    ensures var doc := Clash("https://h/1.0.0");
      && WellFormed(doc) && Bump(PLAIN, "2.0.0", doc).Returned?
      && !DistinctPrints(Bump(PLAIN, "2.0.0", doc).value.report)
  {
    assert "1.0.0"[0] != "2.0.0"[0];
    HostBumps("1.0.0", "2.0.0");
    assert HOST + ("/" + "1.0.0") == "https://h/1.0.0";
    ClashReported(PLAIN, "2.0.0", "https://h/1.0.0", HOST + ("/" + "2.0.0"));
  }

  // ----- the report of a file, with its version line -----

  const VERSION_LINE := ".info.version"

  function FilePaths(f: FileBump): (paths: seq<string>)
  {
    seq(|f.refs|, i requires 0 <= i < |f.refs| => PropertyPath(f.refs[i].path))
    + if f.version.Some? then [VERSION_LINE] else []
  }

  ghost predicate AllDifferent(paths: seq<string>)
  {
    forall i, j :: 0 <= i < j < |paths| ==> paths[i] != paths[j]
  }

  /** No reference is printed like the version line. */
  ghost predicate NoneAtVersion(report: seq<Replacement>)
  {
    forall i :: 0 <= i < |report| ==> Pieces(report[i].path) != ["info", "version"]
  }

  lemma VersionLine(path: seq<string>)
    ensures PropertyPath(path) == VERSION_LINE <==> Pieces(path) == ["info", "version"]
  {
    PlainVersion();
    PrintedAlikeExactly(path, ["info", "version"]);
    PlainPieces(["info", "version"]);
  }

  /** The printed lines of a file's report are pairwise distinct if and only if its references
      still differ after cutting at dots and, where the version was set, none of them is cut
      into `info` and `version`. */
  lemma FilePrintsExactly(f: FileBump)
    ensures AllDifferent(FilePaths(f)) <==>
            DistinctPieces(f.refs) && (f.version.Some? ==> NoneAtVersion(f.refs))
  {
    var paths, n := FilePaths(f), |f.refs|;
    FilePathsAre(f);
    if AllDifferent(paths) {
      forall i, j | 0 <= i < j < n
        ensures Pieces(f.refs[i].path) != Pieces(f.refs[j].path)
      {
        PrintedAlikeExactly(f.refs[i].path, f.refs[j].path);
        assert paths[i] != paths[j];
      }
      if f.version.Some? {
        forall i | 0 <= i < n
          ensures Pieces(f.refs[i].path) != ["info", "version"]
        {
          VersionLine(f.refs[i].path);
          assert paths[i] != paths[n];
        }
      }
    } else {
      var i, j :| 0 <= i < j < |paths| && paths[i] == paths[j];
      if j < n {
        PrintedAlikeExactly(f.refs[i].path, f.refs[j].path);
      } else {
        VersionLine(f.refs[i].path);
      }
    }
  }

  lemma FilePathsAre(f: FileBump)
    ensures |FilePaths(f)| == |f.refs| + (if f.version.Some? then 1 else 0)
    ensures forall i :: 0 <= i < |f.refs| ==> FilePaths(f)[i] == PropertyPath(f.refs[i].path)
    ensures f.version.Some? ==> FilePaths(f)[|f.refs|] == VERSION_LINE
  {
  }

  /** An outdated reference in the place of the version. */
  function VersionRef(text: string): (doc: Json)
  {
    var version := Entry("version", Node(false, [Entry("$ref", Str(text))]));
    Node(false, [Entry("info", Node(false, [version]))])
  }

  lemma VersionRefBumped(lib: Library, v: string, text: string, after: string)
    requires text != "" && BumpRef(lib, v, text) == Returned(Some(after))
    ensures Bump(lib, v, VersionRef(text)).Returned?
    ensures Bump(lib, v, VersionRef(text)).value.report == [Replacement(["info", "version"], text, after)]
  {
    var ref := Entry("$ref", Str(text));
    var version := Entry("version", Node(false, [ref]));
    var info := Entry("info", Node(false, [version]));
    assert ReportedAs(lib, v, ref, Replacement([], text, after));
    assert ["version"] + [] == ["version"] && ["info"] + ["version"] == ["info", "version"];
    ReportedBelow(lib, v, "version", ref, Replacement([], text, after));
    ReportedBelow(lib, v, "info", version, Replacement(["version"], text, after));
    OneEntry(lib, v, info);
  }

  lemma VersionRefSet(lib: Library, v: string, title: string, text: string)
    requires Bump(lib, v, VersionRef(text)).Returned?
    ensures var r := BumpFile(lib, v, title, VersionRef(text));
      r.Returned? && r.value.refs == Bump(lib, v, VersionRef(text)).value.report && r.value.version.Some?
  {
    var doc := VersionRef(text);
    assert WithInfo(title, doc) == doc;
    PropertyStays(lib, v, doc, "info");
    PropertyStays(lib, v, doc.entries[0].value, "version");
  }

  /** Whatever the library and the version, this file is reported twice under `.info.version`,
      though its keys are plain and the traversal's own report has one line. */
  lemma VersionLineClashes(lib: Library, v: string, title: string, text: string, after: string)
    requires text != "" && BumpRef(lib, v, text) == Returned(Some(after))
    ensures var r := BumpFile(lib, v, title, VersionRef(text));
      && r.Returned? && PlainKeys(r.value.refs) && DistinctPrints(r.value.refs)
      && FilePaths(r.value) == [VERSION_LINE, VERSION_LINE]
  {
    VersionRefBumped(lib, v, text, after);
    VersionRefSet(lib, v, title, text);
    var f := BumpFile(lib, v, title, VersionRef(text)).value;
    FilePathsAre(f);
    PlainVersion();
    assert f.refs[0].path == ["info", "version"];
  }

  lemma PlainVersion()
    ensures PropertyPath(["info", "version"]) == VERSION_LINE
    ensures "" !in ["info", "version"] && Free(["info", "version"], '.')
  {
    assert ["info", "version"][1..] == ["version"];
  }
}
