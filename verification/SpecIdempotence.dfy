/** Bumping a bumped document again. */
module SpecIdempotence {
  import opened Text
  import opened SpecBumper
  import opened SpecReport

  /** The library reads back the URLs that the tool writes, and writes no local references. */
  ghost predicate Faithful(lib: Library, v: string)
  {
    forall text :: lib.parse(text).Some? && Dirty(lib, v, lib.parse(text).value) ==>
      var url := Repathed(lib, v, lib.parse(text).value);
      lib.parse(lib.show(url)) == Some(url) && lib.show(url) != "" && !("#" <= lib.show(url))
  }

  /** No segment of the new version is itself a version other than the new one. */
  ghost predicate Stable(lib: Library, v: string)
  {
    Current(lib, v, Split(v, '/'))
  }

  /** In particular, a version without a slash is stable. */
  lemma NoSlashIsStable(lib: Library, v: string)
    requires '/' !in v
    ensures Stable(lib, v)
  {
    SplitFree(v, '/');
  }

  lemma {:induction false} StableStaysCurrent(lib: Library, v: string, parts: seq<string>)
    requires Stable(lib, v)
    requires forall i :: 0 <= i < |parts| ==> parts[i] == v || ('/' !in parts[i] && !lib.isSemVer(parts[i]))
    ensures Current(lib, v, SplitEach(parts, '/'))
  {
    if |parts| > 0 {
      StableStaysCurrent(lib, v, parts[1..]);
      if parts[0] != v { SplitFree(parts[0], '/'); }
    }
  }

  lemma {:induction false} UnstableGoesStale(lib: Library, v: string, parts: seq<string>, i: nat)
    requires !Stable(lib, v) && i < |parts| && parts[i] == v
    ensures !Current(lib, v, SplitEach(parts, '/'))
  {
    var head, rest := Split(parts[0], '/'), SplitEach(parts[1..], '/');
    var all := head + rest;
    assert all == SplitEach(parts, '/');
    if i == 0 {
      var j :| 0 <= j < |head| && lib.isSemVer(head[j]) && head[j] != v;
      assert all[j] == head[j];
    } else {
      UnstableGoesStale(lib, v, parts[1..], i - 1);
      var j :| 0 <= j < |rest| && lib.isSemVer(rest[j]) && rest[j] != v;
      assert all[|head| + j] == rest[j];
    }
  }

  lemma PathTwice(lib: Library, v: string, url: Url)
    requires Dirty(lib, v, url)
    ensures Dirty(lib, v, Repathed(lib, v, url)) <==> url.fixedPath || !Stable(lib, v)
  {
    var parts := Split(url.pathname, '/');
    JoinOfSplit(url.pathname, '/');
    PartsTwice(lib, v, parts);
    SplitOfJoin(Swapped(lib, v, parts), '/');
    SwapsNothingExactly(lib, v, SplitEach(Swapped(lib, v, parts), '/'));
  }

  lemma PartsTwice(lib: Library, v: string, parts: seq<string>)
    requires Free(parts, '/') && Swapped(lib, v, parts) != parts
    ensures Current(lib, v, SplitEach(Swapped(lib, v, parts), '/')) <==> Stable(lib, v)
  {
    var parts' := Swapped(lib, v, parts);
    if Stable(lib, v) {
      StableStaysCurrent(lib, v, parts');
    } else {
      var i :| 0 <= i < |parts| && parts'[i] != parts[i];
      UnstableGoesStale(lib, v, parts', i);
    }
  }

  /** The replacement of this text is final: its path can be set, to a version that stays. */
  ghost predicate Settles(lib: Library, v: string, text: string)
  {
    Stable(lib, v) && lib.parse(text).Some? && !lib.parse(text).value.fixedPath
  }

  ghost predicate AllSettle(lib: Library, v: string, report: seq<Replacement>)
  {
    forall i :: 0 <= i < |report| ==> Settles(lib, v, report[i].oldValue)
  }

  lemma RefTwice(lib: Library, v: string, text: string)
    requires Faithful(lib, v) && BumpRef(lib, v, text).Returned? && BumpRef(lib, v, text).value.Some?
    ensures var text' := BumpRef(lib, v, text).value.value;
      && text' != "" && BumpRef(lib, v, text').Returned?
      && (BumpRef(lib, v, text').value.None? <==> Settles(lib, v, text))
  {
    PathTwice(lib, v, lib.parse(text).value);
  }

  lemma SettleUnder(lib: Library, v: string, key: string, report: seq<Replacement>)
    ensures AllSettle(lib, v, Under(key, report)) <==> AllSettle(lib, v, report)
  {
    var under := Under(key, report);
    assert forall i :: 0 <= i < |report| ==> under[i].oldValue == report[i].oldValue;
  }

  lemma SettleConcat(lib: Library, v: string, a: seq<Replacement>, b: seq<Replacement>)
    ensures AllSettle(lib, v, a + b) <==> AllSettle(lib, v, a) && AllSettle(lib, v, b)
  {
    var all := a + b;
    assert forall i :: 0 <= i < |a| ==> a[i] == all[i];
    assert forall i :: 0 <= i < |b| ==> b[i] == all[|a| + i];
  }

  lemma {:induction false} EntryTwice(lib: Library, v: string, e: Entry)
    requires Faithful(lib, v) && BumpEntry(lib, v, e).Returned?
    ensures var b := BumpEntry(lib, v, e).value;
      var again := BumpEntry(lib, v, Entry(e.key, b.doc));
      again.Returned? && (again.value.report == [] <==> AllSettle(lib, v, b.report))
    decreases e, 0
  {
    if Truthy(e.value) {
      if e.value.Node? {
        BumpTwice(lib, v, e.value);
        SettleUnder(lib, v, e.key, Bump(lib, v, e.value).value.report);
      } else if e.key == "$ref" && BumpRef(lib, v, e.value.s).value.Some? {
        RefTwice(lib, v, e.value.s);
        var report := BumpEntry(lib, v, e).value.report;
        assert |report| == 1 && report[0].oldValue == e.value.s;
      }
    }
  }

  lemma {:induction false} EntriesTwice(lib: Library, v: string, entries: seq<Entry>)
    requires Faithful(lib, v) && BumpEntries(lib, v, entries).Returned?
    ensures var b := BumpEntries(lib, v, entries).value;
      var again := BumpEntries(lib, v, b.entries);
      again.Returned? && (again.value.report == [] <==> AllSettle(lib, v, b.report))
    decreases entries, 1
  {
    if |entries| > 0 {
      var n := |entries| - 1;
      EntriesTwice(lib, v, entries[..n]);
      EntryTwice(lib, v, entries[n]);
      var b := BumpEntries(lib, v, entries).value;
      assert b.entries[..n] == BumpEntries(lib, v, entries[..n]).value.entries;
      SettleConcat(lib, v, BumpEntries(lib, v, entries[..n]).value.report, BumpEntry(lib, v, entries[n]).value.report);
    }
  }

  lemma {:induction false} BumpTwice(lib: Library, v: string, doc: Json)
    requires Faithful(lib, v) && Bump(lib, v, doc).Returned?
    ensures var b := Bump(lib, v, doc).value;
      var again := Bump(lib, v, b.doc);
      again.Returned? && (again.value.report == [] <==> AllSettle(lib, v, b.report))
    decreases doc, 2
  {
    EntriesTwice(lib, v, doc.entries);
  }

  // ----- an empty report means an unchanged document -----

  lemma {:induction false} QuietEntry(lib: Library, v: string, e: Entry)
    requires BumpEntry(lib, v, e).Returned? && BumpEntry(lib, v, e).value.report == []
    ensures BumpEntry(lib, v, e).value.doc == e.value
    decreases e, 0
  {
    if Truthy(e.value) && e.value.Node? {
      QuietBump(lib, v, e.value);
    }
  }

  lemma {:induction false} QuietEntries(lib: Library, v: string, entries: seq<Entry>)
    requires BumpEntries(lib, v, entries).Returned? && BumpEntries(lib, v, entries).value.report == []
    ensures BumpEntries(lib, v, entries).value.entries == entries
    decreases entries, 1
  {
    if |entries| > 0 {
      var n := |entries| - 1;
      QuietEntries(lib, v, entries[..n]);
      QuietEntry(lib, v, entries[n]);
    }
  }

  lemma {:induction false} QuietBump(lib: Library, v: string, doc: Json)
    requires Bump(lib, v, doc).Returned? && Bump(lib, v, doc).value.report == []
    ensures Bump(lib, v, doc).value.doc == doc
    decreases doc, 2
  {
    QuietEntries(lib, v, doc.entries);
  }

  /** A document on which a traversal changes and reports nothing. */
  ghost predicate Clean(lib: Library, v: string, doc: Json)
  {
    Bump(lib, v, doc) == Returned(Bumped(doc, []))
  }

  /** The second traversal changes nothing and reports nothing if and only if every URL that the
      first one replaced has a path that can be set, and the new version is stable. */
  lemma IdempotentExactly(lib: Library, v: string, doc: Json)
    requires Faithful(lib, v) && Bump(lib, v, doc).Returned?
    ensures var b := Bump(lib, v, doc).value;
      Clean(lib, v, b.doc) <==> AllSettle(lib, v, b.report)
  {
    BumpTwice(lib, v, doc);
    var b := Bump(lib, v, doc).value;
    if Bump(lib, v, b.doc).value.report == [] {
      QuietBump(lib, v, b.doc);
    }
  }

  // ----- clean documents, entry by entry -----

  ghost predicate CleanEntry(lib: Library, v: string, e: Entry)
  {
    BumpEntry(lib, v, e) == Returned(Bumped(e.value, []))
  }

  ghost predicate AllClean(lib: Library, v: string, entries: seq<Entry>)
  {
    forall i :: 0 <= i < |entries| ==> CleanEntry(lib, v, entries[i])
  }

  lemma {:induction false} CleanFromEntries(lib: Library, v: string, entries: seq<Entry>)
    requires AllClean(lib, v, entries)
    ensures BumpEntries(lib, v, entries) == Returned(Walked(entries, []))
  {
    if |entries| > 0 {
      var n := |entries| - 1;
      assert AllClean(lib, v, entries[..n]);
      CleanFromEntries(lib, v, entries[..n]);
      assert CleanEntry(lib, v, entries[n]);
      CleanOneMore(lib, v, entries);
    }
  }

  lemma CleanOneMore(lib: Library, v: string, entries: seq<Entry>)
    requires |entries| > 0
    requires BumpEntries(lib, v, entries[..|entries| - 1]) == Returned(Walked(entries[..|entries| - 1], []))
    requires BumpEntry(lib, v, entries[|entries| - 1]) == Returned(Bumped(entries[|entries| - 1].value, []))
    ensures BumpEntries(lib, v, entries) == Returned(Walked(entries, []))
  {
    EntriesAgain(entries);
    assert BumpEntries(lib, v, entries).value.report == [];
  }

  lemma EntriesAgain(entries: seq<Entry>)
    requires |entries| > 0
    ensures var n := |entries| - 1; entries[..n] + [Entry(entries[n].key, entries[n].value)] == entries
  {
  }

  lemma {:induction false} CleanToEntries(lib: Library, v: string, entries: seq<Entry>)
    requires BumpEntries(lib, v, entries) == Returned(Walked(entries, []))
    ensures AllClean(lib, v, entries)
  {
    if |entries| > 0 {
      var n := |entries| - 1;
      SplitsClean(lib, v, entries);
      CleanToEntries(lib, v, entries[..n]);
      assert forall i :: 0 <= i < n ==> entries[i] == entries[..n][i];
    }
  }

  lemma SplitsClean(lib: Library, v: string, entries: seq<Entry>)
    requires |entries| > 0 && BumpEntries(lib, v, entries) == Returned(Walked(entries, []))
    ensures var n := |entries| - 1;
      BumpEntries(lib, v, entries[..n]) == Returned(Walked(entries[..n], [])) && CleanEntry(lib, v, entries[n])
  {
    var n := |entries| - 1;
    var before, last := BumpEntries(lib, v, entries[..n]).value, BumpEntry(lib, v, entries[n]).value;
    assert before.entries + [Entry(entries[n].key, last.doc)] == entries;
    assert before.entries == entries[..n];
  }

  // ----- references that never settle -----

  /** An outdated text whose path cannot be set, and which the library prints as it is. */
  ghost predicate Stuck(lib: Library, v: string, text: string)
  {
    Outdated(lib, v, text) && lib.parse(text).value.fixedPath && lib.show(lib.parse(text).value) == text
  }

  /** A document with such a reference is left as it is and yet reported, on every traversal. */
  lemma StuckIsReported(lib: Library, v: string, text: string)
    requires Stuck(lib, v, text) && text != ""
    ensures var doc := Node(false, [Entry("$ref", Str(text))]);
      Bump(lib, v, doc) == Returned(Bumped(doc, [Replacement([], text, text)]))
  {
    var ref := Entry("$ref", Str(text));
    SwapsNothingExactly(lib, v, Split(lib.parse(text).value.pathname, '/'));
    assert BumpEntry(lib, v, ref) == Returned(Bumped(Str(text), [Replacement([], text, text)]));
    OneEntry(lib, v, ref);
    EntriesOneByOne(lib, v, [ref], 0);
    assert BumpEntries(lib, v, [ref]).value.entries == [ref];
  }

  /** A library for one scheme whose paths are opaque. */
  const FOO := Library(
    s => if "foo:" <= s then Some(Url("foo:", s[4..], "", true)) else None,
    (u: Url) => u.prefix + u.pathname + u.suffix,
    s => s == "1.0.0" || s == "2.0.0")

  lemma FooIsStuck()
    ensures Stuck(FOO, "2.0.0", "foo:1.0.0")
  {
    var text, parts := "foo:1.0.0", ["1.0.0"];
    assert text[0] != '#' && text == "foo:" + "1.0.0" && text[4..] == "1.0.0";
    SplitFree("1.0.0", '/');
    assert parts[0][0] != "2.0.0"[0];
    assert "foo:" + "1.0.0" + "" == text;
  }
}
