/** tools/bump-openapi-spec-dep-versions.ts: the version bumper for `$ref` URLs of OpenAPI
    documents (the Reference Object of section 4.7.23 of the OpenAPI Specification 3.0.3). */
module SpecBumper {
  import opened Text

  datatype Entry = Entry(key: string, value: Json)

  /** A JSON value; objects and arrays alike are their entries, in `Object.entries` order. */
  datatype Json =
    | Null
    | Bool(b: bool)
    | Num(n: int)
    | Str(s: string)
    | Node(isArray: bool, entries: seq<Entry>)

  predicate Truthy(j: Json)
  {
    match j
    case Null => false
    case Bool(b) => b
    case Num(n) => n != 0
    case Str(s) => s != ""
    case Node(_, _) => true
  }

  /** A parsed URL: what precedes the path, the path, and what follows it. Where the path is
      opaque in the sense of the URL Standard, as in `foo:1.0.0`, it is fixed. */
  datatype Url = Url(prefix: string, pathname: string, suffix: string, fixedPath: bool)

  /** Assigning `pathname`, which leaves a fixed path alone. */
  function SetPathname(url: Url, pathname: string): (url': Url)
  {
    if url.fixedPath then url else url.(pathname := pathname)
  }

  /** The URL class and the semantic version test, as the tool finds them. */
  datatype Library = Library(parse: string -> Option<Url>, show: Url -> string, isSemVer: string -> bool)

  datatype Replacement = Replacement(path: seq<string>, oldValue: string, newValue: string)

  datatype Bumped = Bumped(doc: Json, report: seq<Replacement>)

  // ----- one reference -----

  /** Every path segment that is a version, and not the new one, becomes the new one. */
  function Swapped(lib: Library, v: string, parts: seq<string>): (swapped: seq<string>)
    ensures |swapped| == |parts|
    ensures forall i :: 0 <= i < |parts| ==>
      swapped[i] == if lib.isSemVer(parts[i]) && parts[i] != v then v else parts[i]
  {
    if |parts| == 0 then []
    else
      var x := parts[|parts| - 1];
      Swapped(lib, v, parts[..|parts| - 1]) + [if lib.isSemVer(x) && x != v then v else x]
  }

  function Repathed(lib: Library, v: string, url: Url): (url': Url)
  {
    SetPathname(url, Join(Swapped(lib, v, Split(url.pathname, '/')), '/'))
  }

  predicate Dirty(lib: Library, v: string, url: Url)
  {
    Swapped(lib, v, Split(url.pathname, '/')) != Split(url.pathname, '/')
  }

  /** What becomes of a `$ref` text: throws, stays (None), or is replaced. */
  function BumpRef(lib: Library, v: string, text: string): (r: Outcome<Option<string>>)
  {
    if "#" <= text then Returned(None)
    else
      var url := lib.parse(text);
      if url.None? then Threw
      else if Dirty(lib, v, url.value) then Returned(Some(lib.show(Repathed(lib, v, url.value))))
      else Returned(None)
  }

  // ----- the traversal -----

  function Under(key: string, report: seq<Replacement>): (r: seq<Replacement>)
    ensures |r| == |report|
    ensures forall i :: 0 <= i < |r| ==> r[i] == report[i].(path := [key] + report[i].path)
  {
    if |report| == 0 then []
    else
      var x := report[|report| - 1];
      Under(key, report[..|report| - 1]) + [x.(path := [key] + x.path)]
  }

  function BumpEntry(lib: Library, v: string, e: Entry): (r: Outcome<Bumped>)
    decreases e, 0
  {
    if !Truthy(e.value) then Returned(Bumped(e.value, []))
    else if e.value.Node? then
      var sub := Bump(lib, v, e.value);
      if sub.Threw? then Threw else Returned(Bumped(sub.value.doc, Under(e.key, sub.value.report)))
    else if e.key == "$ref" then
      if !e.value.Str? then Threw
      else
        var ref := BumpRef(lib, v, e.value.s);
        if ref.Threw? then Threw
        else if ref.value.None? then Returned(Bumped(e.value, []))
        else Returned(Bumped(Str(ref.value.value), [Replacement([], e.value.s, ref.value.value)]))
    else Returned(Bumped(e.value, []))
  }

  ghost predicate SameKeys(entries: seq<Entry>, entries': seq<Entry>)
  {
    |entries| == |entries'| && forall i :: 0 <= i < |entries| ==> entries[i].key == entries'[i].key
  }

  datatype Walked = Walked(entries: seq<Entry>, report: seq<Replacement>)

  function BumpEntries(lib: Library, v: string, entries: seq<Entry>): (r: Outcome<Walked>)
    ensures r.Returned? ==> SameKeys(r.value.entries, entries)
    decreases entries, 1
  {
    if |entries| == 0 then Returned(Walked([], []))
    else
      var n := |entries| - 1;
      var before := BumpEntries(lib, v, entries[..n]);
      if before.Threw? then Threw
      else
        var last := BumpEntry(lib, v, entries[n]);
        if last.Threw? then Threw
        else Returned(Walked(before.value.entries + [Entry(entries[n].key, last.value.doc)],
                             before.value.report + last.value.report))
  }

  function Bump(lib: Library, v: string, doc: Json): (r: Outcome<Bumped>)
    decreases doc, 2
  {
    if !doc.Node? then Threw
    else
      var walked := BumpEntries(lib, v, doc.entries);
      if walked.Threw? then Threw
      else Returned(Bumped(Node(doc.isArray, walked.value.entries), walked.value.report))
  }

  // ----- undoing a report -----

  /** Writing a `$ref` text back at a key path. */
  function Restore(doc: Json, path: seq<string>, text: string): (r: Json)
    decreases |path|, 1
  {
    if doc.Node? then Node(doc.isArray, RestoreEntries(doc.entries, path, text)) else doc
  }

  function RestoreEntries(entries: seq<Entry>, path: seq<string>, text: string): (r: seq<Entry>)
    ensures |r| == |entries|
    ensures forall i :: 0 <= i < |r| ==> r[i] == RestoreEntry(entries[i], path, text)
    decreases |path|, 0, |entries|
  {
    if |entries| == 0 then []
    else
      var n := |entries| - 1;
      var e := entries[n];
      RestoreEntries(entries[..n], path, text) + [RestoreEntry(e, path, text)]
  }

  function RestoreEntry(e: Entry, path: seq<string>, text: string): (r: Entry)
    decreases |path|, 0, 0
  {
    if path == [] then (if e.key == "$ref" then Entry(e.key, Str(text)) else e)
    else if e.key == path[0] then Entry(e.key, Restore(e.value, path[1..], text))
    else e
  }

  function Undo(doc: Json, report: seq<Replacement>): (r: Json)
  {
    if |report| == 0 then doc
    else
      var n := |report| - 1;
      Restore(Undo(doc, report[..n]), report[n].path, report[n].oldValue)
  }

  // ----- the report undoes the traversal -----

  ghost predicate DistinctKeys(entries: seq<Entry>)
  {
    forall i, j :: 0 <= i < j < |entries| ==> entries[i].key != entries[j].key
  }

  /** No object has a key twice. */
  ghost predicate WellFormed(j: Json)
  {
    j.Node? ==> DistinctKeys(j.entries) && forall i :: 0 <= i < |j.entries| ==> WellFormed(j.entries[i].value)
  }

  lemma {:induction false} UndoConcat(doc: Json, a: seq<Replacement>, b: seq<Replacement>)
    ensures Undo(doc, a + b) == Undo(Undo(doc, a), b)
  {
    if |b| == 0 {
      assert a + b == a;
    } else {
      var n := |b| - 1;
      UndoConcat(doc, a, b[..n]);
      assert (a + b)[..|a + b| - 1] == a + b[..n];
    }
  }

  /** Undoing below one key changes that key's value alone. */
  lemma {:induction false} UndoBelow(isArray: bool, entries: seq<Entry>, i: nat, report: seq<Replacement>)
    requires DistinctKeys(entries) && i < |entries|
    ensures Undo(Node(isArray, entries), Under(entries[i].key, report)) ==
            Node(isArray, entries[i := Entry(entries[i].key, Undo(entries[i].value, report))])
  {
    var k := entries[i].key;
    if |report| == 0 {
      assert entries[i := Entry(k, entries[i].value)] == entries;
    } else {
      var n := |report| - 1;
      UndoBelow(isArray, entries, i, report[..n]);
      var under := Under(k, report);
      assert under[..n] == Under(k, report[..n]);
      var mid := entries[i := Entry(k, Undo(entries[i].value, report[..n]))];
      RestoreBelow(mid, i, report[n].path, report[n].oldValue);
    }
  }

  lemma RestoreBelow(entries: seq<Entry>, i: nat, path: seq<string>, text: string)
    requires DistinctKeys(entries) && i < |entries|
    ensures var k := entries[i].key;
      RestoreEntries(entries, [k] + path, text) == entries[i := Entry(k, Restore(entries[i].value, path, text))]
  {
    assert ([entries[i].key] + path)[1..] == path;
  }

  lemma RestoreHere(entries: seq<Entry>, i: nat, text: string)
    requires DistinctKeys(entries) && i < |entries| && entries[i].key == "$ref"
    ensures RestoreEntries(entries, [], text) == entries[i := Entry("$ref", Str(text))]
  {
  }

  lemma {:induction false} UndoEntry(lib: Library, v: string, e: Entry, isArray: bool, entries: seq<Entry>, i: nat)
    requires WellFormed(e.value) && BumpEntry(lib, v, e).Returned?
    requires DistinctKeys(entries) && i < |entries| && entries[i] == Entry(e.key, BumpEntry(lib, v, e).value.doc)
    ensures Undo(Node(isArray, entries), BumpEntry(lib, v, e).value.report) == Node(isArray, entries[i := e])
    decreases e, 0
  {
    var report := BumpEntry(lib, v, e).value.report;
    if Truthy(e.value) && e.value.Node? {
      UndoesBump(lib, v, e.value);
      UndoBelow(isArray, entries, i, Bump(lib, v, e.value).value.report);
    } else if report == [] {
      assert entries[i := e] == entries;
    } else {
      assert report[..0] == [];
      RestoreHere(entries, i, e.value.s);
    }
  }

  lemma {:induction false} UndoEntries(lib: Library, v: string, isArray: bool, entries: seq<Entry>, tail: seq<Entry>)
    requires BumpEntries(lib, v, entries).Returned? && DistinctKeys(entries + tail)
    requires forall i :: 0 <= i < |entries| ==> WellFormed(entries[i].value)
    ensures var w := BumpEntries(lib, v, entries).value;
      Undo(Node(isArray, w.entries + tail), w.report) == Node(isArray, entries + tail)
    decreases entries, 1
  {
    if |entries| > 0 {
      var n := |entries| - 1;
      var before, last := BumpEntries(lib, v, entries[..n]).value, BumpEntry(lib, v, entries[n]).value;
      var tail' := [Entry(entries[n].key, last.doc)] + tail;
      KeysAlong(entries, tail, last.doc);
      UndoEntries(lib, v, isArray, entries[..n], tail');
      var mid := entries[..n] + tail';
      UndoConcat(Node(isArray, before.entries + tail'), before.report, last.report);
      UndoEntry(lib, v, entries[n], isArray, mid, n);
      Splice(before.entries, Entry(entries[n].key, last.doc), tail);
    }
  }

  lemma Splice(before: seq<Entry>, e: Entry, tail: seq<Entry>)
    ensures (before + [e]) + tail == before + ([e] + tail)
  {
  }

  lemma KeysAlong(entries: seq<Entry>, tail: seq<Entry>, j: Json)
    requires |entries| > 0 && DistinctKeys(entries + tail)
    ensures var n := |entries| - 1;
      var mid := entries[..n] + ([Entry(entries[n].key, j)] + tail);
      DistinctKeys(mid) && mid[n := entries[n]] == entries + tail
  {
    var n := |entries| - 1;
    var all, all' := entries + tail, entries[..n] + ([Entry(entries[n].key, j)] + tail);
    assert forall i :: 0 <= i < |all| ==> all'[i].key == all[i].key;
  }

  /** Writing every reported old value back at its path restores the original document. */
  lemma {:induction false} UndoesBump(lib: Library, v: string, doc: Json)
    requires WellFormed(doc) && Bump(lib, v, doc).Returned?
    ensures Undo(Bump(lib, v, doc).value.doc, Bump(lib, v, doc).value.report) == doc
    decreases doc, 2
  {
    UndoEntries(lib, v, doc.isArray, doc.entries, []);
    var w := BumpEntries(lib, v, doc.entries).value;
    assert w.entries + [] == w.entries && doc.entries + [] == doc.entries;
  }

  // ----- where the replacements are -----

  /** No two replacements have the same path. */
  ghost predicate DistinctPaths(report: seq<Replacement>)
  {
    forall i, j :: 0 <= i < j < |report| ==> report[i].path != report[j].path
  }

  /** The paths of a report belong to an entry: its own `$ref`, or below its key. */
  ghost predicate Below(e: Entry, path: seq<string>)
  {
    if path == [] then e.key == "$ref" else e.key == path[0]
  }

  lemma {:induction false} EntryPaths(lib: Library, v: string, e: Entry)
    requires WellFormed(e.value) && BumpEntry(lib, v, e).Returned?
    ensures var report := BumpEntry(lib, v, e).value.report;
      DistinctPaths(report) && forall i :: 0 <= i < |report| ==> Below(e, report[i].path)
    decreases e, 0
  {
    if Truthy(e.value) && e.value.Node? {
      BumpPaths(lib, v, e.value);
      var sub := Bump(lib, v, e.value).value.report;
      var report := Under(e.key, sub);
      forall i, j | 0 <= i < j < |report|
        ensures report[i].path != report[j].path
      {
        assert report[i].path[1..] == sub[i].path && report[j].path[1..] == sub[j].path;
      }
    }
  }

  lemma {:induction false} EntriesPaths(lib: Library, v: string, entries: seq<Entry>)
    requires BumpEntries(lib, v, entries).Returned? && DistinctKeys(entries)
    requires forall i :: 0 <= i < |entries| ==> WellFormed(entries[i].value)
    ensures var report := BumpEntries(lib, v, entries).value.report;
      && DistinctPaths(report)
      && forall i :: 0 <= i < |report| ==> exists j :: 0 <= j < |entries| && Below(entries[j], report[i].path)
    decreases entries, 1
  {
    if |entries| > 0 {
      var n := |entries| - 1;
      EntriesPaths(lib, v, entries[..n]);
      EntryPaths(lib, v, entries[n]);
      var a, b := BumpEntries(lib, v, entries[..n]).value.report, BumpEntry(lib, v, entries[n]).value.report;
      var report := a + b;
      forall i | 0 <= i < |report|
        ensures exists j :: 0 <= j < |entries| && Below(entries[j], report[i].path)
      {
        if i < |a| {
          var j :| 0 <= j < n && Below(entries[..n][j], a[i].path);
          assert Below(entries[j], report[i].path);
        } else {
          assert Below(entries[n], b[i - |a|].path);
        }
      }
      PathsApart(entries, n, a, b);
    }
  }

  lemma PathsApart(entries: seq<Entry>, n: nat, a: seq<Replacement>, b: seq<Replacement>)
    requires n < |entries| && DistinctKeys(entries) && DistinctPaths(a) && DistinctPaths(b)
    requires forall i :: 0 <= i < |a| ==> exists j :: 0 <= j < n && Below(entries[..n][j], a[i].path)
    requires forall i :: 0 <= i < |b| ==> Below(entries[n], b[i].path)
    ensures DistinctPaths(a + b)
  {
    forall i, i' | 0 <= i < |a| && 0 <= i' < |b|
      ensures a[i].path != b[i'].path
    {
      var j :| 0 <= j < n && Below(entries[..n][j], a[i].path);
      assert entries[j].key != entries[n].key;
    }
  }

  /** The reported paths are distinct. */
  lemma {:induction false} BumpPaths(lib: Library, v: string, doc: Json)
    requires WellFormed(doc) && Bump(lib, v, doc).Returned?
    ensures DistinctPaths(Bump(lib, v, doc).value.report)
    decreases doc, 2
  {
    EntriesPaths(lib, v, doc.entries);
  }
}
