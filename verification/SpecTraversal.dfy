/** The traversal as it runs, with its shared path stack and report. */
module SpecTraversal {
  import opened Text
  import opened SpecBumper
  import opened SpecFile

  /** A report seen from further up: its paths prefixed. */
  function At(path: seq<string>, report: seq<Replacement>): (r: seq<Replacement>)
    ensures |r| == |report|
    ensures forall i :: 0 <= i < |r| ==> r[i] == report[i].(path := path + report[i].path)
  {
    if |report| == 0 then []
    else
      var x := report[|report| - 1];
      At(path, report[..|report| - 1]) + [x.(path := path + x.path)]
  }

  lemma {:induction false} AtConcat(path: seq<string>, a: seq<Replacement>, b: seq<Replacement>)
    ensures At(path, a + b) == At(path, a) + At(path, b)
  {
  }

  lemma {:induction false} AtUnder(path: seq<string>, key: string, report: seq<Replacement>)
    ensures At(path + [key], report) == At(path, Under(key, report))
  {
    if |report| > 0 {
      var n := |report| - 1;
      AtUnder(path, key, report[..n]);
      assert Under(key, report)[..n] == Under(key, report[..n]);
      assert (path + [key]) + report[n].path == path + ([key] + report[n].path);
    }
  }

  lemma {:induction false} PrefixThrows(lib: Library, v: string, entries: seq<Entry>, n: nat)
    requires n <= |entries| && BumpEntries(lib, v, entries[..n]).Threw?
    ensures BumpEntries(lib, v, entries).Threw?
    decreases |entries|
  {
    if n < |entries| {
      var m := |entries| - 1;
      assert entries[..m][..n] == entries[..n];
      PrefixThrows(lib, v, entries[..m], n);
    } else {
      assert entries[..n] == entries;
    }
  }

  /** The traversal of one more entry, as the report grows. */
  lemma OneMore(lib: Library, v: string, entries: seq<Entry>, i: nat, path: seq<string>, past: seq<Replacement>)
    requires i < |entries| && BumpEntries(lib, v, entries[..i]).Returned?
    ensures var done, e := BumpEntries(lib, v, entries[..i]).value, BumpEntry(lib, v, entries[i]);
      if e.Threw? then BumpEntries(lib, v, entries).Threw?
      else
        && BumpEntries(lib, v, entries[..i + 1]) ==
           Returned(Walked(done.entries + [Entry(entries[i].key, e.value.doc)], done.report + e.value.report))
        && past + At(path, done.report + e.value.report) ==
           (past + At(path, done.report)) + At(path, e.value.report)
  {
    PrefixGrows(lib, v, entries, i);
    if BumpEntry(lib, v, entries[i]).Threw? {
      PrefixThrows(lib, v, entries, i + 1);
    } else {
      AtPast(path, past, BumpEntries(lib, v, entries[..i]).value.report, BumpEntry(lib, v, entries[i]).value.report);
    }
  }

  lemma AtPast(path: seq<string>, past: seq<Replacement>, a: seq<Replacement>, b: seq<Replacement>)
    ensures past + At(path, a + b) == (past + At(path, a)) + At(path, b)
  {
    AtConcat(path, a, b);
  }

  lemma PrefixGrows(lib: Library, v: string, entries: seq<Entry>, i: nat)
    requires i < |entries| && BumpEntries(lib, v, entries[..i]).Returned?
    ensures var done, e := BumpEntries(lib, v, entries[..i]).value, BumpEntry(lib, v, entries[i]);
      BumpEntries(lib, v, entries[..i + 1]) ==
      if e.Threw? then Threw
      else Returned(Walked(done.entries + [Entry(entries[i].key, e.value.doc)], done.report + e.value.report))
  {
    assert entries[..i + 1][..i] == entries[..i];
  }

  class RefTraversal {
    const lib: Library
    const newVersion: string
    var replacements: seq<Replacement>
    var propPartPaths: seq<string>

    constructor (lib: Library, newVersion: string)
      ensures this.lib == lib && this.newVersion == newVersion && replacements == [] && propPartPaths == []
    {
      this.lib, this.newVersion := lib, newVersion;
      replacements, propPartPaths := [], [];
    }

    /** The path segments, swapped in place. */
    method SwapParts(parts: array<string>) returns (dirty: bool)
      modifies parts
      ensures parts[..] == Swapped(lib, newVersion, old(parts[..]))
      ensures dirty <==> parts[..] != old(parts[..])
    {
      dirty := false;
      ghost var was := parts[..];
      for idx := 0 to parts.Length
        invariant forall i :: idx <= i < parts.Length ==> parts[i] == was[i]
        invariant forall i :: 0 <= i < idx ==>
          parts[i] == if lib.isSemVer(was[i]) && was[i] != newVersion then newVersion else was[i]
        invariant dirty <==> exists i :: 0 <= i < idx && parts[i] != was[i]
      {
        var x := parts[idx];
        if lib.isSemVer(x) && x != newVersion {
          dirty := true;
          parts[idx] := newVersion;
        }
      }
      assert dirty ==> parts[..] != was;
    }

    method BumpReference(text: string) returns (r: Outcome<Option<string>>)
      ensures r == BumpRef(lib, newVersion, text)
    {
      if "#" <= text {
        return Returned(None);
      }
      var aUrl := lib.parse(text);
      if aUrl.None? {
        return Threw;
      }
      var split := Split(aUrl.value.pathname, '/');
      var urlPathParts := new string[|split|](i requires 0 <= i < |split| => split[i]);
      assert urlPathParts[..] == split;
      var dirty := SwapParts(urlPathParts);
      if !dirty {
        return Returned(None);
      }
      return Returned(Some(lib.show(SetPathname(aUrl.value, Join(urlPathParts[..], '/')))));
    }

    /** Recursive descent. If it returns, the document is the bumped one, the report has grown by
        the replacements below the current path, and the path stack is as it was on entry. */
    method TraversePojoRefs(pojo: Json) returns (r: Outcome<Json>)
      modifies this
      ensures r.Returned? <==> Bump(lib, newVersion, pojo).Returned?
      ensures r.Returned? ==>
        && r.value == Bump(lib, newVersion, pojo).value.doc
        && replacements == old(replacements) + At(old(propPartPaths), Bump(lib, newVersion, pojo).value.report)
        && propPartPaths == old(propPartPaths)
      decreases pojo, 1
    {
      if !pojo.Node? {
        return Threw;
      }
      var entries: seq<Entry> := [];
      for i := 0 to |pojo.entries|
        invariant BumpEntries(lib, newVersion, pojo.entries[..i]).Returned?
        invariant entries == BumpEntries(lib, newVersion, pojo.entries[..i]).value.entries
        invariant propPartPaths == old(propPartPaths)
        invariant replacements == old(replacements) +
          At(propPartPaths, BumpEntries(lib, newVersion, pojo.entries[..i]).value.report)
      {
        OneMore(lib, newVersion, pojo.entries, i, propPartPaths, old(replacements));
        var newVal := TraverseEntry(pojo.entries[i]);
        if newVal.Threw? {
          return Threw;
        }
        entries := entries + [Entry(pojo.entries[i].key, newVal.value)];
      }
      assert pojo.entries[..|pojo.entries|] == pojo.entries;
      return Returned(Node(pojo.isArray, entries));
    }

    method TraverseEntry(e: Entry) returns (r: Outcome<Json>)
      modifies this
      ensures r.Returned? <==> BumpEntry(lib, newVersion, e).Returned?
      ensures r.Returned? ==>
        && r.value == BumpEntry(lib, newVersion, e).value.doc
        && replacements == old(replacements) + At(old(propPartPaths), BumpEntry(lib, newVersion, e).value.report)
        && propPartPaths == old(propPartPaths)
      decreases e, 0
    {
      if !Truthy(e.value) {
        return Returned(e.value);
      } else if e.value.Node? {
        propPartPaths := propPartPaths + [e.key];
        r := TraversePojoRefs(e.value);
        if r.Returned? {
          AtUnder(old(propPartPaths), e.key, Bump(lib, newVersion, e.value).value.report);
          propPartPaths := propPartPaths[..|propPartPaths| - 1];
        }
      } else if e.key == "$ref" {
        if !e.value.Str? {
          return Threw;
        }
        var ref := BumpReference(e.value.s);
        if ref.Threw? {
          return Threw;
        }
        if ref.value.None? {
          return Returned(e.value);
        }
        replacements := replacements + [Replacement(propPartPaths, e.value.s, ref.value.value)];
        assert propPartPaths + [] == propPartPaths;
        return Returned(Str(ref.value.value));
      } else {
        return Returned(e.value);
      }
    }
  }

  /** Between reading and writing a file. */
  method BumpOneFile(lib: Library, newVersion: string, title: string, openApiJson: Json)
    returns (r: Outcome<FileBump>)
    ensures r == BumpFile(lib, newVersion, title, openApiJson)
  {
    if !openApiJson.Node? {
      return Threw;
    }
    var doc := FillInInfo(title, openApiJson);
    var traversal := new RefTraversal(lib, newVersion);
    var bumped := traversal.TraversePojoRefs(doc);
    if bumped.Threw? {
      return Threw;
    }
    AtRoot(Bump(lib, newVersion, doc).value.report);
    r := BumpVersion(newVersion, bumped.value, traversal.replacements);
  }

  method FillInInfo(title: string, openApiJson: Json) returns (doc: Json)
    requires openApiJson.Node?
    ensures doc == WithInfo(title, openApiJson)
  {
    doc := openApiJson;
    var info := Get(doc.entries, "info");
    if info.None? || !Truthy(info.value) {
      doc := Node(doc.isArray, Put(doc.entries, "info", MadeInfo(title)));
    }
  }

  /** Setting the version on an `info` that is no object throws. */
  method BumpVersion(newVersion: string, bumped: Json, replacements: seq<Replacement>)
    returns (r: Outcome<FileBump>)
    ensures r == SetVersion(newVersion, Bumped(bumped, replacements))
  {
    if !bumped.Node? {
      return Threw;
    }
    var info := Get(bumped.entries, "info");
    if info.None? || !info.value.Node? {
      return Threw;
    }
    var oldVersion := Get(info.value.entries, "version");
    if oldVersion == Some(Str(newVersion)) {
      return Returned(FileBump(bumped, replacements, None));
    }
    var newInfo := Node(info.value.isArray, Put(info.value.entries, "version", Str(newVersion)));
    var doc := Node(bumped.isArray, Put(bumped.entries, "info", newInfo));
    return Returned(FileBump(doc, replacements, Some(oldVersion)));
  }

  lemma AtRoot(report: seq<Replacement>)
    ensures [] + At([], report) == report
  {
    var at := At([], report);
    forall i | 0 <= i < |report|
      ensures at[i] == report[i]
    {
      assert [] + report[i].path == report[i].path;
    }
  }
}
