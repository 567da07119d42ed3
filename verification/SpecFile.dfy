/** `bumpOpenApiSpecDepVersionsOneFile` between reading and writing the file: a missing `info`
    is filled in, the references are bumped, and `info.version` is set. */
module SpecFile {
  import opened Text
  import opened SpecBumper
  import opened SpecReport

  function Get(entries: seq<Entry>, key: string): (value: Option<Json>)
  {
    if |entries| == 0 then None
    else if entries[0].key == key then Some(entries[0].value)
    else Get(entries[1..], key)
  }

  /** Assigning a property: in place if it is there, at the end if it is new. */
  function Put(entries: seq<Entry>, key: string, value: Json): (r: seq<Entry>)
  {
    if |entries| == 0 then [Entry(key, value)]
    else if entries[0].key == key then [Entry(key, value)] + entries[1..]
    else [entries[0]] + Put(entries[1..], key, value)
  }

  /** `version` tells whether `info.version` was replaced, and what it was. */
  datatype FileBump = FileBump(doc: Json, refs: seq<Replacement>, version: Option<Option<Json>>)

  function MadeInfo(title: string): (info: Json)
  {
    Node(false, [Entry("title", Str(title)), Entry("version", Str("0.0.0"))])
  }

  function WithInfo(title: string, doc: Json): (doc': Json)
    requires doc.Node?
    ensures doc'.Node?
  {
    var info := Get(doc.entries, "info");
    if info.Some? && Truthy(info.value) then doc
    else Node(doc.isArray, Put(doc.entries, "info", MadeInfo(title)))
  }

  /** Throws if the document is no object, a reference throws, or `info` is a primitive, which
      takes no property. */
  function BumpFile(lib: Library, v: string, title: string, doc: Json): (r: Outcome<FileBump>)
  {
    if !doc.Node? then Threw
    else
      var b := Bump(lib, v, WithInfo(title, doc));
      if b.Threw? then Threw
      else SetVersion(v, b.value)
  }

  function SetVersion(v: string, b: Bumped): (r: Outcome<FileBump>)
  {
    var info := if b.doc.Node? then Get(b.doc.entries, "info") else None;
    if info.None? || !info.value.Node? then Threw
    else
      var version := Get(info.value.entries, "version");
      if version == Some(Str(v)) then Returned(FileBump(b.doc, b.report, None))
      else
        var info' := Node(info.value.isArray, Put(info.value.entries, "version", Str(v)));
        Returned(FileBump(Node(b.doc.isArray, Put(b.doc.entries, "info", info')), b.report, Some(version)))
  }

  // ----- getting what was put -----

  lemma {:induction false} GetPut(entries: seq<Entry>, key: string, value: Json)
    ensures Get(Put(entries, key, value), key) == Some(value)
  {
    if |entries| > 0 && entries[0].key != key {
      GetPut(entries[1..], key, value);
      assert Put(entries, key, value)[1..] == Put(entries[1..], key, value);
    }
  }

  lemma {:induction false} GetIsEntry(entries: seq<Entry>, key: string) returns (i: nat)
    requires Get(entries, key).Some?
    ensures i < |entries| && entries[i] == Entry(key, Get(entries, key).value)
  {
    if entries[0].key == key {
      i := 0;
    } else {
      var j := GetIsEntry(entries[1..], key);
      i := j + 1;
    }
  }

  lemma {:induction false} PutEntries(entries: seq<Entry>, key: string, value: Json, i: nat)
    requires i < |Put(entries, key, value)|
    ensures Put(entries, key, value)[i] == Entry(key, value) || Put(entries, key, value)[i] in entries
  {
    if |entries| > 0 && entries[0].key != key && i > 0 {
      PutEntries(entries[1..], key, value, i - 1);
    }
  }

  lemma {:induction false} PutNew(entries: seq<Entry>, key: string, value: Json)
    requires Get(entries, key).None?
    ensures Put(entries, key, value) == entries + [Entry(key, value)]
  {
    if |entries| > 0 {
      PutNew(entries[1..], key, value);
    }
  }

  ghost predicate FirstAt(entries: seq<Entry>, key: string, i: int)
  {
    0 <= i < |entries| && entries[i].key == key && forall j :: 0 <= j < i ==> entries[j].key != key
  }

  lemma {:induction false} PutAtFirst(entries: seq<Entry>, key: string, value: Json) returns (i: nat)
    requires Get(entries, key).Some?
    ensures FirstAt(entries, key, i) && entries[i] == Entry(key, Get(entries, key).value)
    ensures Put(entries, key, value) == entries[i := Entry(key, value)]
  {
    if entries[0].key == key {
      i := 0;
    } else {
      var j := PutAtFirst(entries[1..], key, value);
      i := j + 1;
      assert forall k :: 1 <= k < i ==> entries[k] == entries[1..][k - 1];
    }
  }

  lemma {:induction false} GetAlong(entries: seq<Entry>, entries': seq<Entry>, key: string) returns (i: nat)
    requires SameKeys(entries, entries') && Get(entries, key).Some?
    ensures i < |entries| && entries[i] == Entry(key, Get(entries, key).value)
    ensures Get(entries', key) == Some(entries'[i].value)
  {
    if entries[0].key == key {
      i := 0;
    } else {
      var j := GetAlong(entries[1..], entries'[1..], key);
      i := j + 1;
    }
  }

  lemma {:induction false} NoneAlong(entries: seq<Entry>, entries': seq<Entry>, key: string)
    requires SameKeys(entries, entries') && Get(entries, key).None?
    ensures Get(entries', key).None?
  {
    if |entries| > 0 {
      NoneAlong(entries[1..], entries'[1..], key);
    }
  }

  /** Bumping makes no object of a property that is none. */
  lemma PropertyStays(lib: Library, v: string, doc: Json, key: string)
    requires doc.Node? && Bump(lib, v, doc).Returned?
    ensures var value, value' := Get(doc.entries, key), Get(Bump(lib, v, doc).value.doc.entries, key);
      && (value.Some? <==> value'.Some?)
      && (value.Some? ==> (value.value.Node? <==> value'.value.Node?))
      && (value.Some? && value.value.Node? ==>
            && Bump(lib, v, value.value).Returned?
            && value'.value == Bump(lib, v, value.value).value.doc)
  {
    var bumped := BumpEntries(lib, v, doc.entries).value.entries;
    if Get(doc.entries, key).Some? {
      var i := GetAlong(doc.entries, bumped, key);
      EntriesOneByOne(lib, v, doc.entries, i);
    } else {
      NoneAlong(doc.entries, bumped, key);
    }
  }

  // ----- `info` filled in, and which files are rejected -----

  /** `doc'` is `doc` with `info` filled in: unchanged if it has one that counts; with a new entry
      at the end if it has none; and with the entry replaced in its place otherwise. */
  ghost predicate FilledIn(title: string, doc: Json, doc': Json)
    requires doc.Node?
  {
    var info := Get(doc.entries, "info");
    var made := Entry("info", Node(false, [Entry("title", Str(title)), Entry("version", Str("0.0.0"))]));
    if info.None? then doc' == Node(doc.isArray, doc.entries + [made])
    else if !Falsy(info.value) then doc' == doc
    else exists i :: FirstAt(doc.entries, "info", i) && doc' == Node(doc.isArray, doc.entries[i := made])
  }

  lemma FillsIn(title: string, doc: Json)
    requires doc.Node?
    ensures FilledIn(title, doc, WithInfo(title, doc))
  {
    var info := Get(doc.entries, "info");
    if info.None? {
      PutNew(doc.entries, "info", MadeInfo(title));
    } else if Falsy(info.value) {
      var _ := PutAtFirst(doc.entries, "info", MadeInfo(title));
    }
  }

  /** `info` can hold a version, or is filled in. */
  ghost predicate InfoFits(doc: Json)
    requires doc.Node?
  {
    var info := Get(doc.entries, "info");
    info.None? || Falsy(info.value) || info.value.Node?
  }

  lemma MadeIsReadable(lib: Library, title: string)
    ensures ReadableEntry(lib, Entry("info", MadeInfo(title)))
  {
    assert "title"[0] != "$ref"[0] && "version"[0] != "$ref"[0];
  }

  lemma FilledIsReadable(lib: Library, title: string, doc: Json)
    requires doc.Node?
    ensures Readable(lib, WithInfo(title, doc)) <==> Readable(lib, doc)
  {
    var made, full := Entry("info", MadeInfo(title)), WithInfo(title, doc);
    var info := Get(doc.entries, "info");
    MadeIsReadable(lib, title);
    if info.None? {
      PutNew(doc.entries, "info", made.value);
      assert forall i :: 0 <= i < |doc.entries| ==> full.entries[i] == doc.entries[i];
      assert full.entries[|doc.entries|] == made;
    } else if Falsy(info.value) {
      var i := PutAtFirst(doc.entries, "info", made.value);
      assert "info"[0] != "$ref"[0];
      assert ReadableEntry(lib, doc.entries[i]) && full.entries[i] == made;
      assert forall j :: 0 <= j < |doc.entries| && j != i ==> full.entries[j] == doc.entries[j];
    }
  }

  lemma FilledFits(title: string, doc: Json)
    requires doc.Node?
    ensures var info := Get(WithInfo(title, doc).entries, "info"); info.Some? && (info.value.Node? <==> InfoFits(doc))
  {
    GetPut(doc.entries, "info", MadeInfo(title));
  }

  /** A file is rejected exactly if the traversal rejects its document or it has an `info` that
      counts and can hold no version. */
  lemma FileReturnsExactly(lib: Library, v: string, title: string, doc: Json)
    ensures BumpFile(lib, v, title, doc).Returned? <==> Readable(lib, doc) && InfoFits(doc)
  {
    if doc.Node? {
      ReturnsExactly(lib, v, WithInfo(title, doc));
      FilledIsReadable(lib, title, doc);
      FilledFits(title, doc);
      if Bump(lib, v, WithInfo(title, doc)).Returned? {
        PropertyStays(lib, v, WithInfo(title, doc), "info");
      }
    }
  }

  // ----- the version in place -----

  lemma VersionIsSet(v: string, b: Bumped)
    requires SetVersion(v, b).Returned?
    ensures HasVersion(v, SetVersion(v, b).value.doc)
  {
    var info := Get(b.doc.entries, "info").value;
    var info' := Node(info.isArray, Put(info.entries, "version", Str(v)));
    GetPut(info.entries, "version", Str(v));
    GetPut(b.doc.entries, "info", info');
  }

  /** Where `info` is, with the new version in it. */
  ghost predicate HasVersion(v: string, doc: Json)
  {
    && doc.Node? && Get(doc.entries, "info").Some? && Get(doc.entries, "info").value.Node?
    && Get(Get(doc.entries, "info").value.entries, "version") == Some(Str(v))
  }

  // ----- undoing a file's report -----

  function Remove(entries: seq<Entry>, key: string): (r: seq<Entry>)
  {
    if |entries| == 0 then []
    else if entries[0].key == key then entries[1..]
    else [entries[0]] + Remove(entries[1..], key)
  }

  /** Putting the old version back, or taking it out if there was none, and then the references. */
  function UndoFile(f: FileBump): (doc: Json)
  {
    var info := if f.doc.Node? then Get(f.doc.entries, "info") else None;
    if f.version.None? || info.None? || !info.value.Node? then Undo(f.doc, f.refs)
    else
      var entries := info.value.entries;
      var entries' := if f.version.value.Some? then Put(entries, "version", f.version.value.value)
                      else Remove(entries, "version");
      Undo(Node(f.doc.isArray, Put(f.doc.entries, "info", Node(info.value.isArray, entries'))), f.refs)
  }

  lemma {:induction false} PutBack(entries: seq<Entry>, key: string, value: Json)
    ensures Get(entries, key).Some? ==> Put(Put(entries, key, value), key, Get(entries, key).value) == entries
    ensures Get(entries, key).None? ==> Remove(Put(entries, key, value), key) == entries
  {
    if |entries| > 0 {
      var put := Put(entries, key, value);
      if entries[0].key == key {
        assert put[1..] == entries[1..];
      } else {
        PutBack(entries[1..], key, value);
        assert put[1..] == Put(entries[1..], key, value);
      }
      assert entries == [entries[0]] + entries[1..];
    }
  }

  lemma {:induction false} PutKeepsKeys(entries: seq<Entry>, key: string, value: Json)
    requires DistinctKeys(entries)
    ensures DistinctKeys(Put(entries, key, value))
    ensures var put := Put(entries, key, value);
      forall i :: 0 <= i < |put| ==>
        put[i].key == key || exists j :: 0 <= j < |entries| && entries[j].key == put[i].key
  {
    if |entries| > 0 {
      var put := Put(entries, key, value);
      if entries[0].key == key {
        assert forall i :: 0 <= i < |put| ==> put[i].key == entries[i].key;
      } else {
        var rest := entries[1..];
        PutKeepsKeys(rest, key, value);
        assert put[1..] == Put(rest, key, value);
        forall i | 1 <= i < |put|
          ensures put[i].key == key || exists j :: 1 <= j < |entries| && entries[j].key == put[i].key
        {
          assert put[i] == put[1..][i - 1];
          if put[i].key != key {
            var j :| 0 <= j < |rest| && rest[j].key == put[i].key;
            assert entries[j + 1].key == put[i].key;
          }
        }
      }
    }
  }

  lemma InfoKeepsWellFormed(title: string, doc: Json)
    requires doc.Node? && WellFormed(doc)
    ensures WellFormed(WithInfo(title, doc))
  {
    var made := MadeInfo(title);
    assert WellFormed(made) by { assert "title"[0] != "version"[0]; }
    var put := Put(doc.entries, "info", made);
    PutKeepsKeys(doc.entries, "info", made);
    forall i | 0 <= i < |put|
      ensures WellFormed(put[i].value)
    {
      PutEntries(doc.entries, "info", made, i);
    }
  }

  lemma VersionUndone(v: string, b: Bumped)
    requires SetVersion(v, b).Returned?
    ensures UndoFile(SetVersion(v, b).value) == Undo(b.doc, b.report)
  {
    var info := Get(b.doc.entries, "info").value;
    if Get(info.entries, "version") != Some(Str(v)) {
      var info' := Node(info.isArray, Put(info.entries, "version", Str(v)));
      GetPut(b.doc.entries, "info", info');
      PutBack(info.entries, "version", Str(v));
      PutBack(b.doc.entries, "info", info');
    }
  }

  /** The report of a file, its version line included, undoes the bump: it leads back to the
      document as read, with `info` filled in if it was missing. */
  lemma UndoesFile(lib: Library, v: string, title: string, doc: Json)
    requires WellFormed(doc) && BumpFile(lib, v, title, doc).Returned?
    ensures FilledIn(title, doc, UndoFile(BumpFile(lib, v, title, doc).value))
  {
    FillsIn(title, doc);
    var b := Bump(lib, v, WithInfo(title, doc)).value;
    VersionUndone(v, b);
    InfoKeepsWellFormed(title, doc);
    UndoesBump(lib, v, WithInfo(title, doc));
  }
}
