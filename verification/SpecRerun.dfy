/** Bumping a file again after it was written. `JSON.stringify` keeps of an array its elements
    only, so an `info` or a `version` that was set on an array does not reach the file. */
module SpecRerun {
  import opened Text
  import opened SpecBumper
  import opened SpecReport
  import opened SpecIdempotence
  import opened SpecFile
  import opened SpecOverwrite

  predicate Index(key: string)
  {
    key != "" && forall i :: 0 <= i < |key| ==> '0' <= key[i] <= '9'
  }

  /** A document as it is read from a file: arrays have elements and no other properties. */
  ghost predicate AsRead(j: Json)
    decreases j, 1
  {
    j.Node? ==> forall i :: 0 <= i < |j.entries| ==> AsReadEntry(j.isArray, j.entries[i])
  }

  ghost predicate AsReadEntry(inArray: bool, e: Entry)
    decreases e, 0
  {
    (inArray ==> Index(e.key)) && AsRead(e.value)
  }

  /** What `JSON.stringify` keeps. */
  function Stored(j: Json): (r: Json)
    decreases j, 1
  {
    if j.Node? then Node(j.isArray, StoredEntries(j.isArray, j.entries)) else j
  }

  function StoredEntries(isArray: bool, entries: seq<Entry>): (r: seq<Entry>)
    decreases entries, 0
  {
    if |entries| == 0 then []
    else
      var n := |entries| - 1;
      StoredEntries(isArray, entries[..n]) +
      if isArray && !Index(entries[n].key) then [] else [Entry(entries[n].key, Stored(entries[n].value))]
  }

  /** A file without replacements is not written. */
  function FileAfter(doc: Json, f: FileBump): (doc': Json)
  {
    if Silent(f) then doc else Stored(f.doc)
  }

  predicate Silent(f: FileBump)
  {
    f.refs == [] && f.version.None?
  }

  // ----- documents as read -----

  lemma {:induction false} AsReadIsStored(j: Json)
    requires AsRead(j)
    ensures Stored(j) == j
    decreases j, 1
  {
    if j.Node? {
      EntriesAreStored(j.isArray, j.entries);
    }
  }

  lemma {:induction false} EntriesAreStored(isArray: bool, entries: seq<Entry>)
    requires forall i :: 0 <= i < |entries| ==> AsReadEntry(isArray, entries[i])
    ensures StoredEntries(isArray, entries) == entries
    decreases entries, 0
  {
    if |entries| > 0 {
      var n := |entries| - 1;
      EntriesAreStored(isArray, entries[..n]);
      assert AsReadEntry(isArray, entries[n]);
      AsReadIsStored(entries[n].value);
    }
  }

  lemma {:induction false} BumpKeepsAsRead(lib: Library, v: string, doc: Json)
    requires AsRead(doc) && Bump(lib, v, doc).Returned?
    ensures AsRead(Bump(lib, v, doc).value.doc)
    decreases doc
  {
    var bumped := BumpEntries(lib, v, doc.entries).value.entries;
    forall i | 0 <= i < |bumped|
      ensures AsReadEntry(doc.isArray, bumped[i])
    {
      EntriesOneByOne(lib, v, doc.entries, i);
      assert AsReadEntry(doc.isArray, doc.entries[i]);
      if doc.entries[i].value.Node? {
        BumpKeepsAsRead(lib, v, doc.entries[i].value);
      }
    }
  }

  /** A name is no property of an array that was read. */
  lemma {:induction false} NoNameInArray(entries: seq<Entry>, name: string)
    requires forall i :: 0 <= i < |entries| ==> AsReadEntry(true, entries[i])
    requires !Index(name)
    ensures Get(entries, name) == None
  {
    if |entries| > 0 {
      assert AsReadEntry(true, entries[0]);
      NoNameInArray(entries[1..], name);
    }
  }

  lemma NamesAreNoIndices()
    ensures !Index("info") && !Index("version")
  {
    assert "info"[0] == 'i' && "version"[0] == 'v';
  }

  /** A named property set on an array is not stored. */
  lemma NameIsDropped(entries: seq<Entry>, name: string, value: Json)
    requires forall i :: 0 <= i < |entries| ==> AsReadEntry(true, entries[i])
    requires !Index(name)
    ensures StoredEntries(true, Put(entries, name, value)) == entries
  {
    NoNameInArray(entries, name);
    PutNew(entries, name, value);
    EntriesAreStored(true, entries);
    var put := entries + [Entry(name, value)];
    assert put[..|entries|] == entries;
  }

  lemma {:induction false} PutOver(entries: seq<Entry>, key: string, value: Json, value': Json)
    ensures Put(Put(entries, key, value), key, value') == Put(entries, key, value')
  {
    if |entries| > 0 {
      var put := Put(entries, key, value);
      if entries[0].key == key {
        assert put[1..] == entries[1..];
      } else {
        PutOver(entries[1..], key, value, value');
        assert put[1..] == Put(entries[1..], key, value);
      }
    }
  }

  lemma {:induction false} StoredAt(entries: seq<Entry>, i: nat)
    requires i < |entries|
    ensures |StoredEntries(false, entries)| == |entries|
    ensures StoredEntries(false, entries)[i] == Entry(entries[i].key, Stored(entries[i].value))
  {
    var n := |entries| - 1;
    if n > 0 {
      StoredAt(entries[..n], if i < n then i else 0);
    }
  }

  /** Storing a change of one property that comes out as it was. */
  lemma ChangeIsDropped(entries: seq<Entry>, i: nat, value: Json)
    requires forall j :: 0 <= j < |entries| ==> AsReadEntry(false, entries[j])
    requires i < |entries| && Stored(value) == entries[i].value
    ensures StoredEntries(false, entries[i := Entry(entries[i].key, value)]) == entries
  {
    var changed := entries[i := Entry(entries[i].key, value)];
    forall j | 0 <= j < |entries|
      ensures |StoredEntries(false, changed)| == |entries| && StoredEntries(false, changed)[j] == entries[j]
    {
      StoredAt(changed, j);
      assert AsReadEntry(false, entries[j]);
      AsReadIsStored(entries[j].value);
    }
  }

  lemma PutKeepsAsRead(entries: seq<Entry>, key: string, value: Json)
    requires forall i :: 0 <= i < |entries| ==> AsReadEntry(false, entries[i])
    requires AsRead(value)
    ensures AsRead(Node(false, Put(entries, key, value)))
  {
    var put := Put(entries, key, value);
    forall i | 0 <= i < |put|
      ensures AsReadEntry(false, put[i])
    {
      PutEntries(entries, key, value, i);
    }
  }

  // ----- `info` before and after -----

  predicate InfoIsArray(doc: Json)
  {
    doc.Node? && Get(doc.entries, "info").Some? && Get(doc.entries, "info").value.Node?
    && Get(doc.entries, "info").value.isArray
  }

  lemma InfoStays(lib: Library, v: string, doc: Json)
    requires doc.Node? && Bump(lib, v, doc).Returned? && Get(doc.entries, "info").Some?
    ensures InfoIsArray(Bump(lib, v, doc).value.doc) <==> InfoIsArray(doc)
  {
    PropertyStays(lib, v, doc, "info");
  }

  // ----- the three shapes of a file -----

  lemma MadeIsClean(lib: Library, v: string, title: string)
    ensures BumpEntry(lib, v, Entry("info", MadeInfo(title))) == Returned(Bumped(MadeInfo(title), []))
  {
    var entries := MadeInfo(title).entries;
    assert "title"[0] != "$ref"[0] && "version"[0] != "$ref"[0];
    forall i | 0 <= i < |entries|
      ensures CleanEntry(lib, v, entries[i])
    {
    }
    CleanFromEntries(lib, v, entries);
  }

  /** In an array, `info` is made anew on every bump. */
  lemma ArrayInfo(lib: Library, v: string, title: string, doc: Json)
    requires doc.Node? && doc.isArray && AsRead(doc)
    ensures WithInfo(title, doc) == Node(true, doc.entries + [Entry("info", MadeInfo(title))])
    ensures Bump(lib, v, WithInfo(title, doc)).Returned? <==> Bump(lib, v, doc).Returned?
    ensures Bump(lib, v, doc).Returned? ==>
      var b := Bump(lib, v, doc).value;
      Bump(lib, v, WithInfo(title, doc)) == Returned(Bumped(WithInfo(title, b.doc), b.report))
  {
    NamesAreNoIndices();
    NoNameInArray(doc.entries, "info");
    PutNew(doc.entries, "info", MadeInfo(title));
    var all := doc.entries + [Entry("info", MadeInfo(title))];
    assert all[..|doc.entries|] == doc.entries;
    MadeIsClean(lib, v, title);
    if Bump(lib, v, doc).Returned? {
      BumpKeepsAsRead(lib, v, doc);
      var b := Bump(lib, v, doc).value;
      NoNameInArray(b.doc.entries, "info");
      PutNew(b.doc.entries, "info", MadeInfo(title));
      assert BumpEntries(lib, v, all) ==
             Returned(Walked(b.doc.entries + [Entry("info", MadeInfo(title))], b.report + []));
      assert b.report + [] == b.report;
    }
  }

  lemma VersionOfMade(title: string)
    ensures Get(MadeInfo(title).entries, "version") == Some(Str("0.0.0"))
  {
    var entries := MadeInfo(title).entries;
    assert entries[0].key[0] == 't' && "version"[0] == 'v';
    assert entries[1..][0] == Entry("version", Str("0.0.0"));
  }

  lemma VersionOnMade(v: string, title: string, b: Bumped)
    requires b.doc.Node? && b.doc.isArray && AsRead(b.doc)
    ensures var r := SetVersion(v, Bumped(WithInfo(title, b.doc), b.report));
      && r.Returned? && r.value.refs == b.report && (r.value.version.None? <==> v == "0.0.0")
      && Stored(r.value.doc) == b.doc
  {
    var entries, made := b.doc.entries, MadeInfo(title);
    NamesAreNoIndices();
    NoNameInArray(entries, "info");
    GetPut(entries, "info", made);
    VersionOfMade(title);
    var info := Node(false, Put(made.entries, "version", Str(v)));
    PutOver(entries, "info", made, info);
    NameIsDropped(entries, "info", made);
    NameIsDropped(entries, "info", info);
  }

  /** What an array's file holds after a bump: its elements, bumped. */
  lemma ArrayStored(lib: Library, v: string, title: string, doc: Json)
    requires doc.Node? && doc.isArray && AsRead(doc) && Bump(lib, v, doc).Returned?
    ensures var b := Bump(lib, v, doc).value;
      && BumpFile(lib, v, title, doc).Returned?
      && var f := BumpFile(lib, v, title, doc).value;
         f.refs == b.report && (f.version.None? <==> v == "0.0.0") && Stored(f.doc) == b.doc
  {
    ArrayInfo(lib, v, title, doc);
    BumpKeepsAsRead(lib, v, doc);
    VersionOnMade(v, title, Bump(lib, v, doc).value);
  }

  /** An array is reported again unless its replacements are final and the version is `0.0.0`. */
  lemma ArrayAgain(lib: Library, v: string, title: string, doc: Json)
    requires Faithful(lib, v) && doc.Node? && doc.isArray && AsRead(doc) && BumpFile(lib, v, title, doc).Returned?
    ensures var f := BumpFile(lib, v, title, doc).value;
      Quiet(lib, v, title, FileAfter(doc, f)) <==> AllSettle(lib, v, f.refs) && v == "0.0.0"
  {
    ArrayInfo(lib, v, title, doc);
    ArrayStored(lib, v, title, doc);
    BumpKeepsAsRead(lib, v, doc);
    BumpTwice(lib, v, doc);
    ArrayStored(lib, v, title, Bump(lib, v, doc).value.doc);
  }

  lemma VersionIsDropped(entries: seq<Entry>, v: string)
    requires forall i :: 0 <= i < |entries| ==> AsReadEntry(true, entries[i])
    ensures Get(entries, "version") == None
    ensures Stored(Node(true, Put(entries, "version", Str(v)))) == Node(true, entries)
  {
    NamesAreNoIndices();
    NoNameInArray(entries, "version");
    NameIsDropped(entries, "version", Str(v));
  }

  lemma VersionOnArray(v: string, b: Bumped)
    requires AsRead(b.doc) && b.doc.Node? && !b.doc.isArray && InfoIsArray(b.doc)
    ensures SetVersion(v, b).Returned? && SetVersion(v, b).value.version.Some?
    ensures Stored(SetVersion(v, b).value.doc) == b.doc
  {
    var info := Get(b.doc.entries, "info").value;
    var info' := Node(true, Put(info.entries, "version", Str(v)));
    var i := PutAtFirst(b.doc.entries, "info", info');
    assert AsReadEntry(false, b.doc.entries[i]) && AsRead(info);
    VersionIsDropped(info.entries, v);
    assert info == Node(true, info.entries);
    assert SetVersion(v, b) == Returned(FileBump(Node(false, Put(b.doc.entries, "info", info')), b.report, Some(None)));
    ChangeIsDropped(b.doc.entries, i, info');
  }

  /** The file `[]` is left as it is and yet reported, on every bump to another version. */
  lemma EmptyArrayReported(lib: Library, v: string, title: string)
    requires v != "0.0.0"
    ensures var doc := Node(true, []);
      && BumpFile(lib, v, title, doc).Returned?
      && !Silent(BumpFile(lib, v, title, doc).value)
      && FileAfter(doc, BumpFile(lib, v, title, doc).value) == doc
  {
    var doc := Node(true, []);
    assert Bump(lib, v, doc) == Returned(Bumped(doc, []));
    ArrayStored(lib, v, title, doc);
  }

  /** An `info` that is an array is reported on every bump. */
  lemma ArrayInfoStored(lib: Library, v: string, title: string, doc: Json)
    requires AsRead(doc) && doc.Node? && !doc.isArray && InfoIsArray(doc) && BumpFile(lib, v, title, doc).Returned?
    ensures var f := BumpFile(lib, v, title, doc).value;
      f.version.Some? && Bump(lib, v, doc).Returned? && Stored(f.doc) == Bump(lib, v, doc).value.doc
  {
    InfoStays(lib, v, doc);
    BumpKeepsAsRead(lib, v, doc);
    VersionOnArray(v, Bump(lib, v, doc).value);
  }

  lemma ArrayInfoAgain(lib: Library, v: string, title: string, doc: Json)
    requires AsRead(doc) && doc.Node? && !doc.isArray && InfoIsArray(doc) && BumpFile(lib, v, title, doc).Returned?
    ensures !Quiet(lib, v, title, FileAfter(doc, BumpFile(lib, v, title, doc).value))
  {
    ArrayInfoStored(lib, v, title, doc);
    var doc' := Bump(lib, v, doc).value.doc;
    BumpKeepsAsRead(lib, v, doc);
    InfoStays(lib, v, doc);
    if BumpFile(lib, v, title, doc').Returned? {
      ArrayInfoStored(lib, v, title, doc');
    }
  }

  /** An ordinary document is stored as it is. */
  lemma ObjectStored(lib: Library, v: string, title: string, doc: Json)
    requires AsRead(doc) && doc.Node? && !doc.isArray && !InfoIsArray(doc) && BumpFile(lib, v, title, doc).Returned?
    ensures Stored(BumpFile(lib, v, title, doc).value.doc) == BumpFile(lib, v, title, doc).value.doc
  {
    var full := WithInfo(title, doc);
    assert AsRead(MadeInfo(title));
    PutKeepsAsRead(doc.entries, "info", MadeInfo(title));
    GetPut(doc.entries, "info", MadeInfo(title));
    var b := Bump(lib, v, full).value;
    InfoStays(lib, v, full);
    BumpKeepsAsRead(lib, v, full);
    var info := Get(b.doc.entries, "info").value;
    var i := GetIsEntry(b.doc.entries, "info");
    assert AsReadEntry(false, b.doc.entries[i]) && AsRead(info);
    PutKeepsAsRead(info.entries, "version", Str(v));
    PutKeepsAsRead(b.doc.entries, "info", Node(false, Put(info.entries, "version", Str(v))));
    AsReadIsStored(BumpFile(lib, v, title, doc).value.doc);
  }

  // ----- the file bumped again -----

  /** Does the version reach the file, so that it is found there the next time? */
  predicate KeepsVersion(v: string, doc: Json)
  {
    doc.Node? && if doc.isArray then v == "0.0.0" else !InfoIsArray(doc)
  }

  /** A bump that reports nothing, and so leaves the file alone. */
  ghost predicate Quiet(lib: Library, v: string, title: string, doc: Json)
  {
    BumpFile(lib, v, title, doc).Returned? && Silent(BumpFile(lib, v, title, doc).value)
  }

  /** An array has no `info` to overwrite anything in. */
  lemma ArraySettles(lib: Library, v: string, doc: Json)
    requires Faithful(lib, v) && AsRead(doc) && WellFormed(doc) && doc.Node? && doc.isArray
    requires Bump(lib, v, doc).Returned?
    ensures var report := Bump(lib, v, doc).value.report;
      SettleOutside(lib, v, report, ["info", "version"]) <==> AllSettle(lib, v, report)
  {
    var report := Bump(lib, v, doc).value.report;
    NamesAreNoIndices();
    EntriesPaths(lib, v, doc.entries);
    forall i | 0 <= i < |report|
      ensures !(["info", "version"] <= report[i].path)
    {
      var j :| 0 <= j < |doc.entries| && Below(doc.entries[j], report[i].path);
      assert AsReadEntry(true, doc.entries[j]);
    }
  }

  /** With the version in place only the references count. */
  lemma QuietIsClean(lib: Library, v: string, title: string, doc: Json)
    requires HasVersion(v, doc)
    ensures Quiet(lib, v, title, doc) <==> Clean(lib, v, doc)
  {
    assert WithInfo(title, doc) == doc;
    if Quiet(lib, v, title, doc) {
      QuietBump(lib, v, doc);
    }
  }

  /** An ordinary document, bumped again. */
  lemma ObjectAgain(lib: Library, v: string, title: string, doc: Json)
    requires Faithful(lib, v) && doc.Node? && WellFormed(doc) && BumpFile(lib, v, title, doc).Returned?
    ensures var f := BumpFile(lib, v, title, doc).value;
      && HasVersion(v, f.doc)
      && (Quiet(lib, v, title, f.doc) <==> SettleOutside(lib, v, f.refs, ["info", "version"]))
  {
    var full := WithInfo(title, doc);
    InfoKeepsWellFormed(title, doc);
    VersionIsSet(v, Bump(lib, v, full).value);
    BumpedWithVersion(lib, v, full);
    QuietIsClean(lib, v, title, BumpFile(lib, v, title, doc).value.doc);
  }

  /** What the file holds afterwards: what it held if nothing was reported; the bumped document
      with its version; but for an array or an array `info`, the bumped document without it. */
  lemma WrittenExactly(lib: Library, v: string, title: string, doc: Json)
    requires AsRead(doc) && BumpFile(lib, v, title, doc).Returned?
    ensures var f := BumpFile(lib, v, title, doc).value;
      if f.refs == [] && f.version.None? then FileAfter(doc, f) == doc
      else if doc.isArray || InfoIsArray(doc)
      then Bump(lib, v, doc).Returned? && FileAfter(doc, f) == Bump(lib, v, doc).value.doc
      else FileAfter(doc, f) == f.doc && HasVersion(v, f.doc)
  {
    if doc.isArray {
      ArrayInfo(lib, v, title, doc);
      ArrayStored(lib, v, title, doc);
    } else if InfoIsArray(doc) {
      ArrayInfoStored(lib, v, title, doc);
    } else {
      ObjectStored(lib, v, title, doc);
      VersionIsSet(v, Bump(lib, v, WithInfo(title, doc)).value);
    }
  }

  /** Bumping the file again reports nothing if and only if it keeps its version and every
      replacement was final, save those that setting `info.version` overwrote. A written object
      that keeps its version has the new one. */
  lemma {:induction false} FileIdempotentExactly(lib: Library, v: string, title: string, doc: Json)
    requires Faithful(lib, v) && AsRead(doc) && WellFormed(doc) && BumpFile(lib, v, title, doc).Returned?
    ensures var f := BumpFile(lib, v, title, doc).value;
      && (Quiet(lib, v, title, FileAfter(doc, f)) <==>
          KeepsVersion(v, doc) && SettleOutside(lib, v, f.refs, ["info", "version"]))
      && (!Silent(f) && !doc.isArray && KeepsVersion(v, doc) ==> HasVersion(v, FileAfter(doc, f)))
  {
    if doc.isArray {
      ArrayInfo(lib, v, title, doc);
      ArrayAgain(lib, v, title, doc);
      ArraySettles(lib, v, doc);
    } else if InfoIsArray(doc) {
      ArrayInfoAgain(lib, v, title, doc);
    } else {
      ObjectStored(lib, v, title, doc);
      ObjectAgain(lib, v, title, doc);
    }
  }
}
