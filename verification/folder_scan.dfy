/** Folder-scan reconciliation: the tracked-document metadata of a folder
    checked against the folder's file listing. Loading and saving the
    metadata and listing the folder are left to the caller; the scan returns
    the reconciled documents, the display rows, and whether the metadata
    must be saved. */
module FolderScan {
  import opened Wrappers

  /** One past revision of a document. */
  datatype HistoryEntry = HistoryEntry(rev: string, file: string)

  /** The tracked state of one document. An empty `currentFile` means the
      document has no active revision. */
  datatype Document = Document(
    currentFile: string,
    currentRev: string,
    updatedAt: string,
    updatedBy: string,
    lastMemo: string,
    history: seq<HistoryEntry>)

  /** One key of the `documents` mapping: the document's logical name and
      its record. The mapping is a sequence of entries in insertion order. */
  datatype Entry = Entry(name: string, doc: Document)

  /** A display row: the document's current file and whether the listing
      lacks it. */
  datatype Row = Row(filename: string, missing: bool)

  /** What a scan hands back to its caller. */
  datatype Scan = Scan(documents: seq<Entry>, rows: seq<Row>, saveNeeded: bool)

  /** No two entries share a name, as in a Python dict. */
  predicate UniqueNames(documents: seq<Entry>) {
    forall i, j :: 0 <= i < j < |documents| ==> documents[i].name != documents[j].name
  }

  /** A record with an active revision. */
  predicate IsActive(e: Entry) {
    e.doc.currentFile != []
  }

  /** The record stored under `name`. */
  function Lookup(documents: seq<Entry>, name: string): (r: Option<Document>)
    ensures r.None? <==> forall i :: 0 <= i < |documents| ==> documents[i].name != name
    ensures r.Some? ==> Entry(name, r.value) in documents
  {
    if documents == [] then None
    else if documents[0].name == name then Some(documents[0].doc)
    else
      assert forall i :: 1 <= i < |documents| ==> documents[i] == documents[1..][i - 1];
      Lookup(documents[1..], name)
  }

  /** The entries with an active revision, in their original order. */
  function Prune(documents: seq<Entry>): (r: seq<Entry>)
    ensures |r| <= |documents|
    ensures forall e :: e in r <==> e in documents && IsActive(e)
    ensures |r| == |documents| <==> forall i :: 0 <= i < |documents| ==> IsActive(documents[i])
  {
    if documents == [] then []
    else
      var rest := Prune(documents[1..]);
      assert forall i :: 1 <= i < |documents| ==> documents[i] == documents[1..][i - 1];
      assert forall e :: e in documents <==> e == documents[0] || e in documents[1..];
      if IsActive(documents[0]) then [documents[0]] + rest else rest
  }

  /** One display row per entry, flagged missing when the listing lacks the
      entry's current file. */
  function RowsFor(documents: seq<Entry>, files: seq<string>): (r: seq<Row>)
    ensures |r| == |documents|
    ensures forall i :: 0 <= i < |documents| ==>
      r[i].filename == documents[i].doc.currentFile && (r[i].missing <==> documents[i].doc.currentFile !in files)
  {
    if documents == [] then []
    else
      var d := documents[0].doc;
      [Row(d.currentFile, d.currentFile !in files)] + RowsFor(documents[1..], files)
  }

  /** `scan_folder` on already-loaded metadata and a folder listing. Records
      without a current file are dropped; every other record is kept
      unchanged and shown, flagged missing when its file is not listed; a
      save is requested exactly when something was dropped. */
  function ScanFolder(documents: seq<Entry>, files: seq<string>): (r: Scan)
    ensures forall e :: e in r.documents <==> e in documents && IsActive(e)
    ensures |r.rows| == |r.documents|
    ensures forall i :: 0 <= i < |r.rows| ==>
      r.rows[i].filename == r.documents[i].doc.currentFile
      && (r.rows[i].missing <==> r.documents[i].doc.currentFile !in files)
    ensures r.saveNeeded <==> exists i :: 0 <= i < |documents| && !IsActive(documents[i])
  {
    var kept := Prune(documents);
    Scan(kept, RowsFor(kept, files), |kept| < |documents|)
  }

  /** Pruning keeps names unique. */
  lemma {:induction false} PruneUnique(documents: seq<Entry>)
    requires UniqueNames(documents)
    ensures UniqueNames(Prune(documents))
  {
    if documents != [] {
      var tail := documents[1..];
      UniqueTail(documents);
      PruneUnique(tail);
      if IsActive(documents[0]) {
        ConsUnique(documents[0], Prune(tail));
      }
    }
  }

  /** With unique names, the pruned mapping is the original one restricted
      to records with an active revision. */
  lemma {:induction false} PruneRestricts(documents: seq<Entry>, name: string)
    requires UniqueNames(documents)
    ensures Lookup(Prune(documents), name)
         == (if Lookup(documents, name).Some? && Lookup(documents, name).value.currentFile != [] then Lookup(documents, name) else None)
  {
    if documents != [] {
      var tail := documents[1..];
      UniqueTail(documents);
      PruneRestricts(tail, name);
      if documents[0].name == name && !IsActive(documents[0]) {
        assert Lookup(Prune(tail), name).None?;
      }
    }
  }

  /** Putting an entry with a fresh name in front keeps names unique. */
  lemma ConsUnique(e: Entry, rest: seq<Entry>)
    requires UniqueNames(rest) && forall x :: x in rest ==> x.name != e.name
    ensures UniqueNames([e] + rest)
  {
    var s := [e] + rest;
    forall i, j | 0 <= i < j < |s| ensures s[i].name != s[j].name {
      assert s[j] == rest[j - 1];
      if i > 0 { assert s[i] == rest[i - 1]; }
    }
  }

  /** The rest of a mapping with unique names has unique names, none of
      them the first entry's. */
  lemma UniqueTail(documents: seq<Entry>)
    requires documents != [] && UniqueNames(documents)
    ensures UniqueNames(documents[1..])
    ensures forall e :: e in documents[1..] ==> e.name != documents[0].name
  {
    var tail := documents[1..];
    forall i, j | 0 <= i < j < |tail| ensures tail[i].name != tail[j].name {
      assert tail[i] == documents[i + 1] && tail[j] == documents[j + 1];
    }
    forall e | e in tail ensures e.name != documents[0].name {
      var k :| 0 <= k < |tail| && tail[k] == e;
      assert documents[k + 1] == e;
    }
  }

  /** Scanning the result of a scan against the same listing changes
      nothing and requests no save. */
  lemma ScanIdempotent(documents: seq<Entry>, files: seq<string>)
    ensures var r := ScanFolder(documents, files);
      ScanFolder(r.documents, files) == Scan(r.documents, r.rows, false)
  {
    var r := ScanFolder(documents, files);
    PruneActive(r.documents);
  }

  /** A mapping whose records are all active is its own pruning. */
  lemma {:induction false} PruneActive(documents: seq<Entry>)
    requires forall i :: 0 <= i < |documents| ==> IsActive(documents[i])
    ensures Prune(documents) == documents
  {
    if documents != [] {
      assert forall i :: 1 <= i < |documents| ==> documents[i] == documents[1..][i - 1];
      PruneActive(documents[1..]);
    }
  }

  /** A tracked document whose current file has vanished from the folder
      stays tracked, is shown once flagged missing, and triggers no save. */
  lemma MissingFileStaysTracked()
    ensures var doc := Document("sample_rev1.0.0_20260210.docx", "rev1.0.0_20260210", "", "", "", []);
      var docs := [Entry("sample.docx", doc)];
      var r := ScanFolder(docs, []);
      && r.documents == docs
      && r.rows == [Row("sample_rev1.0.0_20260210.docx", true)]
      && !r.saveNeeded
  {
  }

  /** A document with no current file is dropped, produces no row, and
      triggers a save. */
  lemma EmptyCurrentFileDropped()
    ensures var docs := [Entry("empty.docx", Document("", "", "", "", "", []))];
      var r := ScanFolder(docs, []);
      && r.documents == []
      && r.rows == []
      && r.saveNeeded
  {
  }
}
