/** Setting a property on a bumped document: which replacements must be final for the result to
    be clean. Those below the property are overwritten and do not matter. */
module SpecOverwrite {
  import opened Text
  import opened SpecBumper
  import opened SpecReport
  import opened SpecIdempotence
  import opened SpecFile

  /** Every replacement whose path does not start like this is final. */
  ghost predicate SettleOutside(lib: Library, v: string, report: seq<Replacement>, prefix: seq<string>)
  {
    forall i :: 0 <= i < |report| ==> prefix <= report[i].path || Settles(lib, v, report[i].oldValue)
  }

  lemma OutsideConcat(lib: Library, v: string, a: seq<Replacement>, b: seq<Replacement>, prefix: seq<string>)
    ensures SettleOutside(lib, v, a + b, prefix) <==>
            SettleOutside(lib, v, a, prefix) && SettleOutside(lib, v, b, prefix)
  {
    var all := a + b;
    assert forall i :: 0 <= i < |a| ==> a[i] == all[i];
    assert forall i :: 0 <= i < |b| ==> b[i] == all[|a| + i];
  }

  lemma OutsideUnder(lib: Library, v: string, key: string, report: seq<Replacement>, prefix: seq<string>)
    ensures SettleOutside(lib, v, Under(key, report), [key] + prefix) <==> SettleOutside(lib, v, report, prefix)
  {
    var under := Under(key, report);
    forall i | 0 <= i < |report|
      ensures under[i].oldValue == report[i].oldValue
      ensures [key] + prefix <= under[i].path <==> prefix <= report[i].path
    {
      assert under[i].path[1..] == report[i].path && ([key] + prefix)[1..] == prefix;
      if prefix <= report[i].path {
        assert under[i].path[..1 + |prefix|] == [key] + report[i].path[..|prefix|];
      }
    }
  }

  ghost predicate EntrySettles(lib: Library, v: string, e: Entry, prefix: seq<string>)
  {
    BumpEntry(lib, v, e).Returned? && SettleOutside(lib, v, BumpEntry(lib, v, e).value.report, prefix)
  }

  /** An entry under another key is not touched: it is clean if and only if its own
      replacements are final. */
  lemma UntouchedEntry(lib: Library, v: string, e: Entry, prefix: seq<string>)
    requires Faithful(lib, v) && WellFormed(e.value) && BumpEntry(lib, v, e).Returned?
    requires prefix != [] && e.key != prefix[0]
    ensures var b := BumpEntry(lib, v, e).value;
      && (EntrySettles(lib, v, e, prefix) <==> AllSettle(lib, v, b.report))
      && (CleanEntry(lib, v, Entry(e.key, b.doc)) <==> AllSettle(lib, v, b.report))
  {
    var b := BumpEntry(lib, v, e).value;
    EntryPaths(lib, v, e);
    forall i | 0 <= i < |b.report|
      ensures !(prefix <= b.report[i].path)
    {
      assert Below(e, b.report[i].path);
    }
    EntryTwice(lib, v, e);
    if BumpEntry(lib, v, Entry(e.key, b.doc)).value.report == [] {
      QuietEntry(lib, v, Entry(e.key, b.doc));
    }
  }

  ghost predicate EntriesSettle(lib: Library, v: string, entries: seq<Entry>, prefix: seq<string>)
  {
    forall i :: 0 <= i < |entries| ==> EntrySettles(lib, v, entries[i], prefix)
  }

  lemma SettleSnoc(lib: Library, v: string, entries: seq<Entry>, prefix: seq<string>)
    requires |entries| > 0
    ensures var n := |entries| - 1;
      EntriesSettle(lib, v, entries, prefix) <==>
      EntriesSettle(lib, v, entries[..n], prefix) && EntrySettles(lib, v, entries[n], prefix)
  {
    var init := entries[..|entries| - 1];
    assert forall i :: 0 <= i < |init| ==> init[i] == entries[i];
  }

  lemma {:induction false} OutsideByEntry(lib: Library, v: string, entries: seq<Entry>, prefix: seq<string>)
    requires BumpEntries(lib, v, entries).Returned?
    ensures SettleOutside(lib, v, BumpEntries(lib, v, entries).value.report, prefix) <==>
            EntriesSettle(lib, v, entries, prefix)
  {
    if |entries| > 0 {
      var n := |entries| - 1;
      OutsideByEntry(lib, v, entries[..n], prefix);
      SettleSnoc(lib, v, entries, prefix);
      OutsideConcat(lib, v, BumpEntries(lib, v, entries[..n]).value.report,
                    BumpEntry(lib, v, entries[n]).value.report, prefix);
    }
  }

  lemma CleanByEntry(lib: Library, v: string, isArray: bool, entries: seq<Entry>)
    ensures Clean(lib, v, Node(isArray, entries)) <==> AllClean(lib, v, entries)
  {
    if Clean(lib, v, Node(isArray, entries)) {
      CleanToEntries(lib, v, entries);
    }
    if AllClean(lib, v, entries) {
      CleanFromEntries(lib, v, entries);
    }
  }

  /** Where setting `key` puts its entry among the bumped ones. */
  lemma PutPlace(entries: seq<Entry>, bumped: seq<Entry>, key: string, value: Json) returns (i: nat)
    requires SameKeys(bumped, entries) && DistinctKeys(entries)
    ensures i <= |entries| && (i < |entries| ==> entries[i].key == key)
    ensures forall j :: 0 <= j < |entries| && j != i ==> entries[j].key != key
    ensures var put := Put(bumped, key, value);
      && |put| == (if i < |entries| then |entries| else |entries| + 1)
      && put[i] == Entry(key, value)
      && forall j :: 0 <= j < |entries| && j != i ==> put[j] == bumped[j]
  {
    if Get(bumped, key).Some? {
      i := PutAtFirst(bumped, key, value);
    } else {
      i := |entries|;
      PutNew(bumped, key, value);
      NotThere(bumped, key);
    }
  }

  lemma {:induction false} NotThere(entries: seq<Entry>, key: string)
    requires Get(entries, key).None?
    ensures forall j :: 0 <= j < |entries| ==> entries[j].key != key
  {
    if |entries| > 0 {
      NotThere(entries[1..], key);
      assert forall j :: 1 <= j < |entries| ==> entries[j] == entries[1..][j - 1];
    }
  }

  lemma PlaceByPlace(lib: Library, v: string, entries: seq<Entry>, put: seq<Entry>, i: nat, prefix: seq<string>)
    requires i <= |entries| && |put| == if i < |entries| then |entries| else |entries| + 1
    requires forall j :: 0 <= j < |entries| && j != i ==>
      (CleanEntry(lib, v, put[j]) <==> EntrySettles(lib, v, entries[j], prefix))
    requires if i < |entries| then CleanEntry(lib, v, put[i]) <==> EntrySettles(lib, v, entries[i], prefix)
             else CleanEntry(lib, v, put[i])
    ensures AllClean(lib, v, put) <==> EntriesSettle(lib, v, entries, prefix)
  {
    assert AllClean(lib, v, put) ==> forall j :: 0 <= j < |entries| ==> CleanEntry(lib, v, put[j]);
  }

  /** Setting one property of a bumped object. What is set is to be clean if and only if the
      replacements that it does not overwrite are final. */
  lemma PropertySet(lib: Library, v: string, isArray: bool, entries: seq<Entry>,
                    key: string, value: Json, below: seq<string>)
    requires Faithful(lib, v) && WellFormed(Node(isArray, entries)) && BumpEntries(lib, v, entries).Returned?
    requires forall i :: 0 <= i < |entries| && entries[i].key == key ==>
      (CleanEntry(lib, v, Entry(key, value)) <==> EntrySettles(lib, v, entries[i], [key] + below))
    requires (exists i :: 0 <= i < |entries| && entries[i].key == key) || CleanEntry(lib, v, Entry(key, value))
    ensures var w := BumpEntries(lib, v, entries).value;
      Clean(lib, v, Node(isArray, Put(w.entries, key, value))) <==>
      SettleOutside(lib, v, w.report, [key] + below)
  {
    var w := BumpEntries(lib, v, entries).value;
    var put, prefix := Put(w.entries, key, value), [key] + below;
    CleanByEntry(lib, v, isArray, put);
    OutsideByEntry(lib, v, entries, prefix);
    var i := PutPlace(entries, w.entries, key, value);
    forall j | 0 <= j < |entries| && j != i
      ensures CleanEntry(lib, v, put[j]) <==> EntrySettles(lib, v, entries[j], prefix)
    {
      EntriesOneByOne(lib, v, entries, j);
      UntouchedEntry(lib, v, entries[j], prefix);
    }
    PlaceByPlace(lib, v, entries, put, i, prefix);
  }

  // ----- `info.version` -----

  lemma NodeEntryClean(lib: Library, v: string, key: string, node: Json)
    requires node.Node?
    ensures CleanEntry(lib, v, Entry(key, node)) <==> Clean(lib, v, node)
  {
    if Bump(lib, v, node).Returned? {
      assert |Under(key, Bump(lib, v, node).value.report)| == |Bump(lib, v, node).value.report|;
    }
  }

  /** The version overwrites what was there, whatever it was. */
  lemma VersionOverwrites(lib: Library, v: string, e: Entry)
    requires e.key == "version" && BumpEntry(lib, v, e).Returned?
    ensures EntrySettles(lib, v, e, ["version"] + [])
  {
    assert "version"[0] != "$ref"[0];
    if e.value.Node? {
      OutsideUnder(lib, v, "version", Bump(lib, v, e.value).value.report, []);
    }
  }

  lemma VersionSet(lib: Library, v: string, info: Json)
    requires Faithful(lib, v) && WellFormed(info) && Bump(lib, v, info).Returned?
    ensures var b := Bump(lib, v, info).value;
      Clean(lib, v, Node(info.isArray, Put(b.doc.entries, "version", Str(v)))) <==>
      SettleOutside(lib, v, b.report, ["version"])
  {
    assert CleanEntry(lib, v, Entry("version", Str(v))) by { assert "version"[0] != "$ref"[0]; }
    forall i | 0 <= i < |info.entries| && info.entries[i].key == "version"
      ensures EntrySettles(lib, v, info.entries[i], ["version"] + [])
    {
      EntriesOneByOne(lib, v, info.entries, i);
      VersionOverwrites(lib, v, info.entries[i]);
    }
    PropertySet(lib, v, info.isArray, info.entries, "version", Str(v), []);
    assert ["version"] + [] == ["version"];
  }

  lemma SetVersionForm(v: string, b: Bumped)
    requires SetVersion(v, b).Returned?
    ensures var info := Get(b.doc.entries, "info").value;
      SetVersion(v, b).value.doc == Node(b.doc.isArray, Put(b.doc.entries, "info",
        Node(info.isArray, Put(info.entries, "version", Str(v)))))
  {
    var info := Get(b.doc.entries, "info").value;
    if Get(info.entries, "version") == Some(Str(v)) {
      var i := PutAtFirst(info.entries, "version", Str(v));
      assert Put(info.entries, "version", Str(v)) == info.entries;
      var j := PutAtFirst(b.doc.entries, "info", info);
      assert Put(b.doc.entries, "info", info) == b.doc.entries;
    }
  }

  /** A bumped document with its version set is clean if and only if every replacement outside
      `info.version` was final. */
  lemma BumpedWithVersion(lib: Library, v: string, doc: Json)
    requires Faithful(lib, v) && WellFormed(doc) && Bump(lib, v, doc).Returned?
    requires SetVersion(v, Bump(lib, v, doc).value).Returned?
    ensures var b := Bump(lib, v, doc).value;
      Clean(lib, v, SetVersion(v, b).value.doc) <==> SettleOutside(lib, v, b.report, ["info", "version"])
  {
    var b := Bump(lib, v, doc).value;
    SetVersionForm(v, b);
    PropertyStays(lib, v, doc, "info");
    var info := Get(doc.entries, "info").value;
    var k := GetIsEntry(doc.entries, "info");
    var sub := Bump(lib, v, info).value;
    var info' := Node(info.isArray, Put(sub.doc.entries, "version", Str(v)));
    VersionSet(lib, v, info);
    NodeEntryClean(lib, v, "info", info');
    InfoSettles(lib, v, doc.entries[k], sub.report);
    PropertySet(lib, v, doc.isArray, doc.entries, "info", info', ["version"]);
    assert ["info"] + ["version"] == ["info", "version"];
  }

  lemma InfoSettles(lib: Library, v: string, e: Entry, report: seq<Replacement>)
    requires e.key == "info" && e.value.Node?
    requires Bump(lib, v, e.value).Returned? && Bump(lib, v, e.value).value.report == report
    ensures EntrySettles(lib, v, e, ["info"] + ["version"]) <==> SettleOutside(lib, v, report, ["version"])
  {
    OutsideUnder(lib, v, "info", report, ["version"]);
  }
}
