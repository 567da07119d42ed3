/** What a traversal's report says about the document: what each replacement is, how the report
    leads from the old document to the new one. */
module SpecReport {
  import opened Text
  import opened SpecBumper

  // ----- what a replacement is -----

  /** No path segment is a version other than the new one. */
  ghost predicate Current(lib: Library, v: string, parts: seq<string>)
  {
    forall i :: 0 <= i < |parts| ==> !(lib.isSemVer(parts[i]) && parts[i] != v)
  }

  ghost predicate Outdated(lib: Library, v: string, text: string)
  {
    !("#" <= text) && lib.parse(text).Some? && !Current(lib, v, Split(lib.parse(text).value.pathname, '/'))
  }

  /** A replaced text was a parsable, non-local URL with an outdated version segment; its path
      keeps every segment that is not an outdated version, and the rest become the new one. */
  ghost predicate Replaces(lib: Library, v: string, before: string, after: string)
  {
    && Outdated(lib, v, before)
    && exists parts' :: SwapsVersions(lib, v, Split(lib.parse(before).value.pathname, '/'), parts')
         && after == lib.show(WithPath(lib.parse(before).value, Join(parts', '/')))
  }

  /** A URL keeps what precedes and follows its path, and the path too if that is opaque. */
  ghost function WithPath(url: Url, path: string): (url': Url)
    ensures url'.prefix == url.prefix && url'.suffix == url.suffix && url'.fixedPath == url.fixedPath
    ensures url'.pathname == if url.fixedPath then url.pathname else path
  {
    SetPathname(url, path)
  }

  ghost predicate SwapsVersions(lib: Library, v: string, parts: seq<string>, parts': seq<string>)
  {
    && |parts'| == |parts|
    && forall i :: 0 <= i < |parts| ==>
         if lib.isSemVer(parts[i]) && parts[i] != v then parts'[i] == v else parts'[i] == parts[i]
  }

  lemma SwapsOneWay(lib: Library, v: string, parts: seq<string>, parts': seq<string>)
    ensures SwapsVersions(lib, v, parts, parts') <==> parts' == Swapped(lib, v, parts)
  {
  }

  lemma SwapsNothingExactly(lib: Library, v: string, parts: seq<string>)
    ensures Swapped(lib, v, parts) == parts <==> Current(lib, v, parts)
  {
    var s := Swapped(lib, v, parts);
    if s == parts {
      forall i | 0 <= i < |parts|
        ensures !(lib.isSemVer(parts[i]) && parts[i] != v)
      {
        assert s[i] == parts[i];
      }
    }
  }

  lemma RefReplaces(lib: Library, v: string, text: string, after: string)
    requires BumpRef(lib, v, text).Returned?
    ensures BumpRef(lib, v, text).value.Some? <==> Outdated(lib, v, text)
    ensures Replaces(lib, v, text, after) <==> BumpRef(lib, v, text).value == Some(after)
  {
    if !("#" <= text) {
      var url := lib.parse(text).value;
      var parts := Split(url.pathname, '/');
      SwapsNothingExactly(lib, v, parts);
      SwapsOneWay(lib, v, parts, Swapped(lib, v, parts));
      if Replaces(lib, v, text, after) {
        var parts' :| SwapsVersions(lib, v, parts, parts') && after == lib.show(WithPath(url, Join(parts', '/')));
        SwapsOneWay(lib, v, parts, parts');
      }
    }
  }

  lemma {:induction false} EntryReplaces(lib: Library, v: string, e: Entry, n: nat)
    requires BumpEntry(lib, v, e).Returned? && n < |BumpEntry(lib, v, e).value.report|
    ensures var r := BumpEntry(lib, v, e).value.report[n]; Replaces(lib, v, r.oldValue, r.newValue)
    decreases e, 0
  {
    if e.value.Node? {
      EveryReplacement(lib, v, e.value, n);
    } else {
      RefReplaces(lib, v, e.value.s, BumpRef(lib, v, e.value.s).value.value);
    }
  }

  lemma {:induction false} EntriesReplace(lib: Library, v: string, entries: seq<Entry>, n: nat)
    requires BumpEntries(lib, v, entries).Returned? && n < |BumpEntries(lib, v, entries).value.report|
    ensures var r := BumpEntries(lib, v, entries).value.report[n]; Replaces(lib, v, r.oldValue, r.newValue)
    decreases entries, 1
  {
    var m := |entries| - 1;
    var k := |BumpEntries(lib, v, entries[..m]).value.report|;
    if n < k {
      EntriesReplace(lib, v, entries[..m], n);
    } else {
      EntryReplaces(lib, v, entries[m], n - k);
    }
  }

  /** Every reported replacement is of that kind. */
  lemma {:induction false} EveryReplacement(lib: Library, v: string, doc: Json, n: nat)
    requires Bump(lib, v, doc).Returned? && n < |Bump(lib, v, doc).value.report|
    ensures var r := Bump(lib, v, doc).value.report[n]; Replaces(lib, v, r.oldValue, r.newValue)
    decreases doc, 2
  {
    EntriesReplace(lib, v, doc.entries, n);
  }

  // ----- which references are reported -----

  /** The document has this text as the `$ref` at this path. */
  ghost predicate Holds(doc: Json, path: seq<string>, text: string)
    decreases |path|, 1
  {
    doc.Node? && exists i :: 0 <= i < |doc.entries| && HoldsEntry(doc.entries[i], path, text)
  }

  ghost predicate HoldsEntry(e: Entry, path: seq<string>, text: string)
    decreases |path|, 0
  {
    if path == [] then e.key == "$ref" && e.value == Str(text)
    else e.key == path[0] && Holds(e.value, path[1..], text)
  }

  /** What a report should have: a text that is there, is not empty, and is replaced as above. */
  ghost predicate DueIn(lib: Library, v: string, e: Entry, r: Replacement)
  {
    r.oldValue != "" && HoldsEntry(e, r.path, r.oldValue) && Replaces(lib, v, r.oldValue, r.newValue)
  }

  ghost predicate Due(lib: Library, v: string, doc: Json, r: Replacement)
  {
    r.oldValue != "" && Holds(doc, r.path, r.oldValue) && Replaces(lib, v, r.oldValue, r.newValue)
  }

  lemma UnderExactly(key: string, report: seq<Replacement>, r: Replacement)
    ensures r in Under(key, report) <==>
            r.path != [] && r.path[0] == key && r.(path := r.path[1..]) in report
  {
    var under := Under(key, report);
    if r in under {
      var i :| 0 <= i < |under| && under[i] == r;
      assert r.path[1..] == report[i].path;
      assert report[i] == r.(path := r.path[1..]);
    }
    if r.path != [] && r.path[0] == key && r.(path := r.path[1..]) in report {
      var i :| 0 <= i < |report| && report[i] == r.(path := r.path[1..]);
      assert [key] + r.path[1..] == r.path;
      assert under[i] == r;
    }
  }

  lemma {:induction false} EntryReportsExactly(lib: Library, v: string, e: Entry, r: Replacement)
    requires BumpEntry(lib, v, e).Returned?
    ensures r in BumpEntry(lib, v, e).value.report <==> DueIn(lib, v, e, r)
    decreases e, 0
  {
    if e.value.Node? {
      UnderExactly(e.key, Bump(lib, v, e.value).value.report, r);
      if r.path != [] {
        ReportsExactly(lib, v, e.value, r.(path := r.path[1..]));
      }
    } else if e.key == "$ref" && e.value.Str? && e.value.s != "" {
      RefReplaces(lib, v, e.value.s, r.newValue);
      var ref := BumpRef(lib, v, e.value.s).value;
      var report := BumpEntry(lib, v, e).value.report;
      assert report == if ref.None? then [] else [Replacement([], e.value.s, ref.value)];
      assert HoldsEntry(e, r.path, r.oldValue) <==> r.path == [] && r.oldValue == e.value.s;
      assert ref.Some? ==> (r in report <==> r == Replacement([], e.value.s, ref.value));
    } else {
      assert r.path != [] ==> !Holds(e.value, r.path[1..], r.oldValue);
    }
  }

  ghost predicate DueAmong(lib: Library, v: string, entries: seq<Entry>, r: Replacement)
  {
    exists i :: 0 <= i < |entries| && DueIn(lib, v, entries[i], r)
  }

  lemma DueSnoc(lib: Library, v: string, entries: seq<Entry>, r: Replacement)
    requires |entries| > 0
    ensures var n := |entries| - 1;
      DueAmong(lib, v, entries, r) <==> DueAmong(lib, v, entries[..n], r) || DueIn(lib, v, entries[n], r)
  {
    var init := entries[..|entries| - 1];
    assert forall i :: 0 <= i < |init| ==> init[i] == entries[i];
  }

  lemma {:induction false} EntriesReportExactly(lib: Library, v: string, entries: seq<Entry>, r: Replacement)
    requires BumpEntries(lib, v, entries).Returned?
    ensures r in BumpEntries(lib, v, entries).value.report <==>
            DueAmong(lib, v, entries, r)
    decreases entries, 1
  {
    if |entries| > 0 {
      var n := |entries| - 1;
      EntriesReportExactly(lib, v, entries[..n], r);
      EntryReportsExactly(lib, v, entries[n], r);
      DueSnoc(lib, v, entries, r);
    }
  }

  /** The report has exactly the outdated references of the document, at their paths, with their
      texts and what replaces them. */
  lemma {:induction false} ReportsExactly(lib: Library, v: string, doc: Json, r: Replacement)
    requires Bump(lib, v, doc).Returned?
    ensures r in Bump(lib, v, doc).value.report <==> Due(lib, v, doc, r)
    decreases doc, 2
  {
    EntriesReportExactly(lib, v, doc.entries, r);
    if Due(lib, v, doc, r) {
      var i :| 0 <= i < |doc.entries| && HoldsEntry(doc.entries[i], r.path, r.oldValue);
      assert DueIn(lib, v, doc.entries[i], r);
    }
  }

  // ----- in which order -----

  /** The reference at `p` comes before the one at `q`, entry by entry from the top. */
  ghost predicate Before(doc: Json, p: seq<string>, q: seq<string>)
    decreases |p|
  {
    doc.Node? && exists a, b :: 0 <= a <= b < |doc.entries| && BeforeAt(doc.entries, a, b, p, q)
  }

  ghost predicate BeforeAt(entries: seq<Entry>, a: nat, b: nat, p: seq<string>, q: seq<string>)
    requires a <= b < |entries|
    decreases |p|, 0
  {
    && Below(entries[a], p) && Below(entries[b], q)
    && (a == b ==> p != [] && q != [] && Before(entries[a].value, p[1..], q[1..]))
  }

  lemma {:induction false} EntryInOrder(lib: Library, v: string, entries: seq<Entry>, n: nat, i: nat, j: nat)
    requires n < |entries| && WellFormed(entries[n].value) && BumpEntry(lib, v, entries[n]).Returned?
    requires i < j < |BumpEntry(lib, v, entries[n]).value.report|
    ensures var report := BumpEntry(lib, v, entries[n]).value.report;
      BeforeAt(entries, n, n, report[i].path, report[j].path)
    decreases entries[n], 0
  {
    var e := entries[n];
    var report, sub := BumpEntry(lib, v, e).value.report, Bump(lib, v, e.value).value.report;
    EntryPaths(lib, v, e);
    InDocumentOrder(lib, v, e.value, i, j);
    assert report[i].path[1..] == sub[i].path && report[j].path[1..] == sub[j].path;
  }

  lemma StillBefore(entries: seq<Entry>, n: nat, a: nat, b: nat, p: seq<string>, q: seq<string>)
    requires a <= b < n <= |entries| && BeforeAt(entries[..n], a, b, p, q)
    ensures BeforeAt(entries, a, b, p, q)
  {
  }

  lemma BeforeLast(entries: seq<Entry>, init: seq<Entry>, p: seq<string>, q: seq<string>) returns (a: nat)
    requires |entries| > 0 && init == entries[..|entries| - 1] && Below(entries[|entries| - 1], q)
    requires exists k :: 0 <= k < |init| && Below(init[k], p)
    ensures a < |entries| - 1 && BeforeAt(entries, a, |entries| - 1, p, q)
  {
    a :| 0 <= a < |init| && Below(init[a], p);
  }

  lemma AcrossInOrder(lib: Library, v: string, entries: seq<Entry>, i: nat, j: nat) returns (a: nat, b: nat)
    requires |entries| > 0 && DistinctKeys(entries)
    requires forall k :: 0 <= k < |entries| ==> WellFormed(entries[k].value)
    requires BumpEntries(lib, v, entries[..|entries| - 1]).Returned?
    requires BumpEntry(lib, v, entries[|entries| - 1]).Returned?
    requires i < |BumpEntries(lib, v, entries[..|entries| - 1]).value.report|
    requires j < |BumpEntry(lib, v, entries[|entries| - 1]).value.report|
    ensures a <= b < |entries|
    ensures BeforeAt(entries, a, b, BumpEntries(lib, v, entries[..|entries| - 1]).value.report[i].path,
                     BumpEntry(lib, v, entries[|entries| - 1]).value.report[j].path)
  {
    var n := |entries| - 1;
    var before, last := BumpEntries(lib, v, entries[..n]).value.report, BumpEntry(lib, v, entries[n]).value.report;
    EntriesPaths(lib, v, entries[..n]);
    EntryPaths(lib, v, entries[n]);
    a := BeforeLast(entries, entries[..n], before[i].path, last[j].path);
    b := n;
  }

  lemma {:induction false} EntriesInOrder(
      lib: Library, v: string, entries: seq<Entry>, i: nat, j: nat) returns (a: nat, b: nat)
    requires BumpEntries(lib, v, entries).Returned? && DistinctKeys(entries)
    requires forall k :: 0 <= k < |entries| ==> WellFormed(entries[k].value)
    requires i < j < |BumpEntries(lib, v, entries).value.report|
    ensures var report := BumpEntries(lib, v, entries).value.report;
      a <= b < |entries| && BeforeAt(entries, a, b, report[i].path, report[j].path)
    decreases entries, 1
  {
    var n := |entries| - 1;
    var before := BumpEntries(lib, v, entries[..n]).value.report;
    if j < |before| {
      a, b := EntriesInOrder(lib, v, entries[..n], i, j);
      StillBefore(entries, n, a, b, before[i].path, before[j].path);
    } else if i < |before| {
      a, b := AcrossInOrder(lib, v, entries, i, j - |before|);
    } else {
      a, b := n, n;
      EntryInOrder(lib, v, entries, n, i - |before|, j - |before|);
    }
  }

  /** The report lists the references in document order. */
  lemma {:induction false} InDocumentOrder(lib: Library, v: string, doc: Json, i: nat, j: nat)
    requires WellFormed(doc) && Bump(lib, v, doc).Returned? && i < j < |Bump(lib, v, doc).value.report|
    ensures var report := Bump(lib, v, doc).value.report; Before(doc, report[i].path, report[j].path)
    decreases doc, 2
  {
    var a, b := EntriesInOrder(lib, v, doc.entries, i, j);
  }

  // ----- which documents are rejected -----

  ghost predicate Falsy(j: Json)
  {
    j == Null || j == Bool(false) || j == Num(0) || j == Str("")
  }

  /** Every `$ref` that counts is a text, and a local reference or a URL. */
  ghost predicate Readable(lib: Library, doc: Json)
    decreases doc, 1
  {
    doc.Node? && forall i :: 0 <= i < |doc.entries| ==> ReadableEntry(lib, doc.entries[i])
  }

  ghost predicate ReadableEntry(lib: Library, e: Entry)
    decreases e, 0
  {
    if e.value.Node? then Readable(lib, e.value)
    else e.key == "$ref" && !Falsy(e.value) ==>
      e.value.Str? && ((|e.value.s| > 0 && e.value.s[0] == '#') || lib.parse(e.value.s).Some?)
  }

  lemma {:induction false} EntryReturnsExactly(lib: Library, v: string, e: Entry)
    ensures BumpEntry(lib, v, e).Returned? <==> ReadableEntry(lib, e)
    decreases e, 0
  {
    if e.value.Node? {
      ReturnsExactly(lib, v, e.value);
    }
  }

  lemma {:induction false} EntriesReturnExactly(lib: Library, v: string, entries: seq<Entry>)
    ensures BumpEntries(lib, v, entries).Returned? <==>
            forall i :: 0 <= i < |entries| ==> ReadableEntry(lib, entries[i])
    decreases entries, 1
  {
    if |entries| > 0 {
      var n := |entries| - 1;
      EntriesReturnExactly(lib, v, entries[..n]);
      EntryReturnsExactly(lib, v, entries[n]);
      assert forall i :: 0 <= i < n ==> entries[..n][i] == entries[i];
    }
  }

  /** The traversal throws exactly on a document that is no object or has a `$ref` below that is
      neither a local reference nor a URL; null, false, 0 and the empty text are passed over. */
  lemma {:induction false} ReturnsExactly(lib: Library, v: string, doc: Json)
    ensures Bump(lib, v, doc).Returned? <==> Readable(lib, doc)
    decreases doc, 2
  {
    if doc.Node? {
      EntriesReturnExactly(lib, v, doc.entries);
    }
  }

  // ----- what the bumped document is -----

  /** The same document but for the outdated `$ref` texts, each replaced as above. */
  ghost predicate Rewritten(lib: Library, v: string, doc: Json, doc': Json)
  {
    && doc.Node? && doc'.Node? && doc'.isArray == doc.isArray && |doc'.entries| == |doc.entries|
    && forall i :: 0 <= i < |doc.entries| ==> EntryRewritten(lib, v, doc.entries[i], doc'.entries[i])
  }

  ghost predicate EntryRewritten(lib: Library, v: string, e: Entry, e': Entry)
  {
    && e'.key == e.key
    && if e.value.Node? then Rewritten(lib, v, e.value, e'.value)
       else if e.key == "$ref" && e.value.Str? && e.value.s != "" && Outdated(lib, v, e.value.s)
       then e'.value.Str? && Replaces(lib, v, e.value.s, e'.value.s)
       else e'.value == e.value
  }

  lemma {:induction false} EntriesOneByOne(lib: Library, v: string, entries: seq<Entry>, i: nat)
    requires BumpEntries(lib, v, entries).Returned? && i < |entries|
    ensures BumpEntry(lib, v, entries[i]).Returned?
    ensures BumpEntries(lib, v, entries).value.entries[i] ==
            Entry(entries[i].key, BumpEntry(lib, v, entries[i]).value.doc)
  {
    var n := |entries| - 1;
    if i < n {
      EntriesOneByOne(lib, v, entries[..n], i);
    }
  }

  lemma {:induction false} EntryExactly(lib: Library, v: string, e: Entry, e': Entry)
    requires BumpEntry(lib, v, e).Returned?
    ensures EntryRewritten(lib, v, e, e') <==> e' == Entry(e.key, BumpEntry(lib, v, e).value.doc)
    decreases e, 0
  {
    if e.value.Node? {
      BumpsExactly(lib, v, e.value, e'.value);
    } else if e.key == "$ref" && e.value.Str? && e.value.s != "" {
      RefReplaces(lib, v, e.value.s, if e'.value.Str? then e'.value.s else "");
    }
  }

  /** The bumped document is the one and only document that is the original with its outdated
      references replaced and everything else kept. */
  lemma {:induction false} BumpsExactly(lib: Library, v: string, doc: Json, doc': Json)
    requires Bump(lib, v, doc).Returned?
    ensures Rewritten(lib, v, doc, doc') <==> doc' == Bump(lib, v, doc).value.doc
    decreases doc, 2
  {
    var bumped := BumpEntries(lib, v, doc.entries).value.entries;
    if doc'.Node? && |doc'.entries| == |doc.entries| {
      forall i | 0 <= i < |doc.entries|
        ensures EntryRewritten(lib, v, doc.entries[i], doc'.entries[i]) <==> doc'.entries[i] == bumped[i]
      {
        EntriesOneByOne(lib, v, doc.entries, i);
        EntryExactly(lib, v, doc.entries[i], doc'.entries[i]);
      }
    }
  }

  // ----- the report leads to it -----

  /** A report read the other way round. */
  function Flipped(report: seq<Replacement>): (r: seq<Replacement>)
    ensures |r| == |report|
    ensures forall i :: 0 <= i < |r| ==> r[i] == Replacement(report[i].path, report[i].newValue, report[i].oldValue)
  {
    if |report| == 0 then []
    else
      var x := report[|report| - 1];
      Flipped(report[..|report| - 1]) + [Replacement(x.path, x.newValue, x.oldValue)]
  }

  /** Writing every reported new value at its path. */
  function Redo(doc: Json, report: seq<Replacement>): (r: Json)
  {
    Undo(doc, Flipped(report))
  }

  lemma FlippedUnder(key: string, report: seq<Replacement>)
    ensures Flipped(Under(key, report)) == Under(key, Flipped(report))
  {
  }

  lemma FlippedConcat(a: seq<Replacement>, b: seq<Replacement>)
    ensures Flipped(a + b) == Flipped(a) + Flipped(b)
  {
  }

  lemma {:induction false} RedoEntry(lib: Library, v: string, e: Entry, isArray: bool, entries: seq<Entry>, i: nat)
    requires WellFormed(e.value) && BumpEntry(lib, v, e).Returned?
    requires DistinctKeys(entries) && i < |entries| && entries[i] == e
    ensures var b := BumpEntry(lib, v, e).value;
      Redo(Node(isArray, entries), b.report) == Node(isArray, entries[i := Entry(e.key, b.doc)])
    decreases e, 0
  {
    var b := BumpEntry(lib, v, e).value;
    if e.value.Node? {
      var sub := Bump(lib, v, e.value).value.report;
      RedoesBump(lib, v, e.value);
      FlippedUnder(e.key, sub);
      UndoBelow(isArray, entries, i, Flipped(sub));
    } else if b.report == [] {
      assert entries[i := e] == entries;
    } else {
      RedoOne(isArray, entries, i, b.report[0]);
    }
  }

  lemma RedoOne(isArray: bool, entries: seq<Entry>, i: nat, r: Replacement)
    requires DistinctKeys(entries) && i < |entries| && entries[i].key == "$ref" && r.path == []
    ensures Redo(Node(isArray, entries), [r]) == Node(isArray, entries[i := Entry("$ref", Str(r.newValue))])
  {
    var flipped := Flipped([r]);
    assert |flipped| == 1 && flipped[0] == Replacement([], r.newValue, r.oldValue) && flipped[..0] == [];
    var doc := Node(isArray, entries);
    assert Undo(doc, flipped[..0]) == doc;
    assert Undo(doc, flipped) == Restore(doc, [], r.newValue);
    RestoreHere(entries, i, r.newValue);
  }

  lemma RedoConcat(doc: Json, a: seq<Replacement>, b: seq<Replacement>)
    ensures Redo(doc, a + b) == Redo(Redo(doc, a), b)
  {
    FlippedConcat(a, b);
    UndoConcat(doc, Flipped(a), Flipped(b));
  }

  lemma {:induction false} RedoEntries(lib: Library, v: string, isArray: bool, entries: seq<Entry>, tail: seq<Entry>)
    requires BumpEntries(lib, v, entries).Returned? && DistinctKeys(entries + tail)
    requires forall i :: 0 <= i < |entries| ==> WellFormed(entries[i].value)
    ensures var w := BumpEntries(lib, v, entries).value;
      Redo(Node(isArray, entries + tail), w.report) == Node(isArray, w.entries + tail)
    decreases entries, 1
  {
    if |entries| > 0 {
      var n := |entries| - 1;
      var before, last := BumpEntries(lib, v, entries[..n]).value, BumpEntry(lib, v, entries[n]).value;
      var tail' := [entries[n]] + tail;
      assert entries[..n] + tail' == entries + tail;
      RedoEntries(lib, v, isArray, entries[..n], tail');
      RedoConcat(Node(isArray, entries + tail), before.report, last.report);
      var mid := before.entries + tail';
      KeysStay(entries, tail, before.entries);
      RedoEntry(lib, v, entries[n], isArray, mid, n);
      Replaced(before.entries, entries[n], Entry(entries[n].key, last.doc), tail);
    }
  }

  lemma Replaced(before: seq<Entry>, e: Entry, e': Entry, tail: seq<Entry>)
    ensures (before + ([e] + tail))[|before| := e'] == (before + [e']) + tail
  {
  }

  lemma KeysStay(entries: seq<Entry>, tail: seq<Entry>, before: seq<Entry>)
    requires |entries| > 0 && DistinctKeys(entries + tail) && SameKeys(before, entries[..|entries| - 1])
    ensures DistinctKeys(before + ([entries[|entries| - 1]] + tail))
  {
    var all, all' := entries + tail, before + ([entries[|entries| - 1]] + tail);
    assert forall i :: 0 <= i < |all| ==> all'[i].key == all[i].key;
  }

  /** Writing every reported new value at its path in the original gives the bumped document. */
  lemma {:induction false} RedoesBump(lib: Library, v: string, doc: Json)
    requires WellFormed(doc) && Bump(lib, v, doc).Returned?
    ensures Redo(doc, Bump(lib, v, doc).value.report) == Bump(lib, v, doc).value.doc
    decreases doc, 2
  {
    RedoEntries(lib, v, doc.isArray, doc.entries, []);
    var w := BumpEntries(lib, v, doc.entries).value;
    assert w.entries + [] == w.entries && doc.entries + [] == doc.entries;
  }

  // ----- small documents -----

  lemma OneEntry(lib: Library, v: string, e: Entry)
    requires BumpEntry(lib, v, e).Returned?
    ensures Bump(lib, v, Node(false, [e])).Returned?
    ensures Bump(lib, v, Node(false, [e])).value.report == BumpEntry(lib, v, e).value.report
  {
    var entries := [e];
    assert entries[..0] == [] && entries[0] == e;
    assert BumpEntries(lib, v, entries[..0]) == Returned(Walked([], []));
    assert BumpEntries(lib, v, entries).value.report == [] + BumpEntry(lib, v, e).value.report;
  }

  lemma TwoEntries(lib: Library, v: string, e: Entry, e': Entry)
    requires BumpEntry(lib, v, e).Returned? && BumpEntry(lib, v, e').Returned?
    ensures Bump(lib, v, Node(false, [e, e'])).Returned?
    ensures Bump(lib, v, Node(false, [e, e'])).value.report ==
            BumpEntry(lib, v, e).value.report + BumpEntry(lib, v, e').value.report
  {
    OneEntry(lib, v, e);
    var entries := [e, e'];
    assert entries[..1] == [e] && entries[1] == e';
  }

  /** `e` is reported as `r` alone. */
  ghost predicate ReportedAs(lib: Library, v: string, e: Entry, r: Replacement)
  {
    BumpEntry(lib, v, e).Returned? && BumpEntry(lib, v, e).value.report == [r]
  }

  lemma ReportedBelow(lib: Library, v: string, key: string, e: Entry, r: Replacement)
    requires ReportedAs(lib, v, e, r)
    ensures ReportedAs(lib, v, Entry(key, Node(false, [e])), r.(path := [key] + r.path))
  {
    OneEntry(lib, v, e);
  }
}
