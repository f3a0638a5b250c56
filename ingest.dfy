/**
 * `indexDoc` and `indexDocs`: reading and parsing one file, building its
 * record and submitting it by the writer's mode; walking a directory,
 * where a failure inside one file is swallowed and the walk goes on, or
 * indexing a single file, where the same failure escapes to the caller.
 */
module Ingest {
  import opened Wrappers
  import opened Records
  import opened IndexStore

  type Bytes = seq<bv8>

  /**
   * A file the walk reaches: its path, its last-modified time in
   * milliseconds, and its bytes, or None when opening it throws.
   */
  datatype FileEntry = FileEntry(path: string, lastModified: int, content: Option<Bytes>)

  /**
   * One event of `Files.walkFileTree`: a file handed to `visitFile`, or a
   * file or directory the walk could not read, which the visitor's
   * inherited `visitFileFailed` rethrows.
   */
  datatype Item = Visit(file: FileEntry) | VisitFailed(path: string)

  /** The docs path: a directory with its walk, or a single file. */
  datatype Node = Directory(items: seq<Item>) | RegularFile(file: FileEntry)

  /** The HTML parser's answer for some bytes. */
  datatype Parsed = ParseOk(doc: DocData) | ParseFail

  /** Where ingestion ended: it completed, or an IOException escaped at `at`. */
  datatype Ingested = Completed(store: seq<Record>) | Escaped(store: seq<Record>, at: string)

  /** The record `indexDoc` builds for `file`, or None when reading or parsing it throws. */
  function Extract(file: FileEntry, parse: Bytes -> Parsed): Option<Record> {
    match file.content
    case None => None
    case Some(bytes) =>
      match parse(bytes)
      case ParseFail => None
      case ParseOk(doc) => Some(BuildRecord(file.path, file.lastModified, doc))
  }

  /** The store after `indexDoc`, or None when it throws (before anything is submitted). */
  function IndexDocSpec(mode: OpenMode, s: seq<Record>, file: FileEntry, parse: Bytes -> Parsed): Option<seq<Record>> {
    match Extract(file, parse)
    case None => None
    case Some(r) => Some(Submit(mode, s, r))
  }

  /** The walk from store `s`: each failing file is skipped, a failed visit ends the walk. */
  function WalkSpec(mode: OpenMode, s: seq<Record>, items: seq<Item>, parse: Bytes -> Parsed): Ingested
    decreases |items|
  {
    if items == [] then Completed(s)
    else match items[0]
      case VisitFailed(p) => Escaped(s, p)
      case Visit(f) => WalkSpec(mode, IndexDocSpec(mode, s, f, parse).GetOr(s), items[1..], parse)
  }

  /** `indexDocs` on the docs path. */
  function IngestSpec(mode: OpenMode, s: seq<Record>, node: Node, parse: Bytes -> Parsed): Ingested {
    match node
    case Directory(items) => WalkSpec(mode, s, items, parse)
    case RegularFile(f) =>
      match IndexDocSpec(mode, s, f, parse)
      case None => Escaped(s, f.path)
      case Some(t) => Completed(t)
  }

  /** The record a walk entry yields, if it reads and parses. */
  function Yield(item: Item, parse: Bytes -> Parsed): seq<Record> {
    match item
    case VisitFailed(_) => []
    case Visit(f) => match Extract(f, parse) case None => [] case Some(r) => [r]
  }

  /** The records built from the files of a walk that read and parse, in walk order. */
  function Built(items: seq<Item>, parse: Bytes -> Parsed): seq<Record> {
    if items == [] then [] else Yield(items[0], parse) + Built(items[1..], parse)
  }

  /** The walk reads every entry: no visit failed. */
  predicate AllVisited(items: seq<Item>) {
    forall i :: 0 <= i < |items| ==> items[i].Visit?
  }

  /** The last element of `b`, alone, or `otherwise` when `b` is empty. */
  function LastOr(b: seq<Record>, otherwise: seq<Record>): seq<Record> {
    if b == [] then otherwise else [b[|b| - 1]]
  }

  lemma {:induction false} BuiltConcat(a: seq<Item>, b: seq<Item>, parse: Bytes -> Parsed)
    ensures Built(a + b, parse) == Built(a, parse) + Built(b, parse)
  {
    if a == [] {
      assert a + b == b;
    } else {
      assert (a + b)[1..] == a[1..] + b;
      BuiltConcat(a[1..], b, parse);
    }
  }

  /** A walk entry that is visited leaves the store as `indexDoc` leaves it. */
  lemma WalkVisit(mode: OpenMode, s: seq<Record>, items: seq<Item>, parse: Bytes -> Parsed)
    requires items != [] && items[0].Visit?
    ensures WalkSpec(mode, s, items, parse) ==
      WalkSpec(mode, IndexDocSpec(mode, s, items[0].file, parse).GetOr(s), items[1..], parse)
  {
  }

  /** The rest of a walk whose entries are all visited has all its entries visited. */
  lemma AllVisitedTail(items: seq<Item>)
    requires items != [] && AllVisited(items)
    ensures items[0].Visit? && AllVisited(items[1..])
  {
    forall i | 0 <= i < |items[1..]| ensures items[1..][i].Visit? {
      assert items[1..][i] == items[i + 1];
    }
  }

  /** In CREATE mode one visited entry appends what it yields. */
  lemma CreateVisit(s: seq<Record>, f: FileEntry, parse: Bytes -> Parsed)
    ensures IndexDocSpec(Create, s, f, parse).GetOr(s) == s + Yield(Visit(f), parse)
  {
  }

  /**
   * CREATE mode: a complete walk appends, in walk order, one record for
   * every file that reads and parses, and keeps the earlier store as it was.
   */
  lemma {:induction false} WalkCreate(s: seq<Record>, items: seq<Item>, parse: Bytes -> Parsed)
    requires AllVisited(items)
    ensures WalkSpec(Create, s, items, parse) == Completed(s + Built(items, parse))
    decreases |items|
  {
    if items == [] {
      assert s + [] == s;
    } else {
      AllVisitedTail(items);
      var y := Yield(items[0], parse);
      WalkVisit(Create, s, items, parse);
      CreateVisit(s, items[0].file, parse);
      WalkCreate(s + y, items[1..], parse);
      assert Built(items, parse) == y + Built(items[1..], parse);
      assert (s + y) + Built(items[1..], parse) == s + (y + Built(items[1..], parse));
    }
  }

  lemma LastOrConcat(a: seq<Record>, b: seq<Record>, x: seq<Record>)
    ensures LastOr(a + b, x) == LastOr(b, LastOr(a, x))
  {
    if b != [] {
      assert (a + b)[|a + b| - 1] == b[|b| - 1];
    } else {
      assert a + b == a;
    }
  }

  /** In update mode one visited entry leaves each path its new record, if it yields one, or what it had. */
  lemma UpdateVisit(mode: OpenMode, s: seq<Record>, f: FileEntry, parse: Bytes -> Parsed, p: string)
    requires mode != Create
    ensures RecordsAt(IndexDocSpec(mode, s, f, parse).GetOr(s), p) ==
      LastOr(RecordsAt(Yield(Visit(f), parse), p), RecordsAt(s, p))
  {
    match Extract(f, parse)
    case None =>
    case Some(r) =>
      SubmitUpdate(mode, s, r, p);
      assert [r][1..] == [];
  }

  /**
   * Update mode: after a complete walk each path holds exactly the last
   * record built for it during the walk, and a path no readable file had
   * keeps exactly the records it had.
   */
  lemma {:induction false} WalkUpdate(mode: OpenMode, s: seq<Record>, items: seq<Item>, parse: Bytes -> Parsed, p: string)
    requires mode != Create
    requires AllVisited(items)
    ensures WalkSpec(mode, s, items, parse).Completed?
    ensures RecordsAt(WalkSpec(mode, s, items, parse).store, p) ==
      LastOr(RecordsAt(Built(items, parse), p), RecordsAt(s, p))
    decreases |items|
  {
    if items != [] {
      AllVisitedTail(items);
      var f := items[0].file;
      var s' := IndexDocSpec(mode, s, f, parse).GetOr(s);
      var y := Yield(items[0], parse);
      var rest := Built(items[1..], parse);
      WalkVisit(mode, s, items, parse);
      WalkUpdate(mode, s', items[1..], parse, p);
      UpdateVisit(mode, s, f, parse, p);
      LastOrConcat(RecordsAt(y, p), RecordsAt(rest, p), RecordsAt(s, p));
      RecordsAtConcat(y, rest, p);
      assert Built(items, parse) == y + rest;
    }
  }

  /** Update mode keeps paths unique across a complete walk. */
  lemma WalkUpdateUnique(mode: OpenMode, s: seq<Record>, items: seq<Item>, parse: Bytes -> Parsed)
    requires mode != Create
    requires AllVisited(items)
    requires UniquePaths(s)
    ensures WalkSpec(mode, s, items, parse).Completed?
    ensures UniquePaths(WalkSpec(mode, s, items, parse).store)
  {
    WalkUpdate(mode, s, items, parse, "");
    forall p ensures |RecordsAt(WalkSpec(mode, s, items, parse).store, p)| <= 1 {
      WalkUpdate(mode, s, items, parse, p);
    }
  }

  /**
   * Running the same update walk twice gives every path the records it had
   * after the first run.
   */
  lemma WalkUpdateTwice(mode: OpenMode, s: seq<Record>, items: seq<Item>, parse: Bytes -> Parsed, p: string)
    requires mode != Create
    requires AllVisited(items)
    ensures WalkSpec(mode, s, items, parse).Completed?
    ensures WalkSpec(mode, WalkSpec(mode, s, items, parse).store, items, parse).Completed?
    ensures RecordsAt(WalkSpec(mode, WalkSpec(mode, s, items, parse).store, items, parse).store, p) ==
      RecordsAt(WalkSpec(mode, s, items, parse).store, p)
  {
    WalkUpdate(mode, s, items, parse, p);
    WalkUpdate(mode, WalkSpec(mode, s, items, parse).store, items, parse, p);
  }

  /**
   * A failed visit ends the walk: the exception escapes at that entry and
   * the store is what the entries before it left.
   */
  lemma {:induction false} WalkEscapes(mode: OpenMode, s: seq<Record>, items: seq<Item>, k: nat, parse: Bytes -> Parsed)
    requires k < |items| && items[k].VisitFailed?
    requires AllVisited(items[..k])
    ensures WalkSpec(mode, s, items, parse) ==
      Escaped(WalkSpec(mode, s, items[..k], parse).store, items[k].path)
    decreases k
  {
    if k > 0 {
      assert items[0] == items[..k][0];
      assert items[..k][0].Visit?;
      var tail := items[1..][..k - 1];
      assert AllVisited(tail) by {
        forall i | 0 <= i < |tail| ensures tail[i].Visit? {
          assert tail[i] == items[..k][i + 1];
        }
      }
      var s' := IndexDocSpec(mode, s, items[0].file, parse).GetOr(s);
      WalkEscapes(mode, s', items[1..], k - 1, parse);
      assert items[..k][1..] == items[1..][..k - 1];
    }
  }

  /** A file that fails contributes nothing, and the files around it are still built. */
  lemma BuiltSkipsFailure(a: seq<Item>, f: FileEntry, b: seq<Item>, parse: Bytes -> Parsed)
    requires Extract(f, parse).None?
    ensures Built(a + [Visit(f)] + b, parse) == Built(a, parse) + Built(b, parse)
  {
    var one := [Visit(f)];
    assert Built(one, parse) == [] by {
      assert one[1..] == [];
    }
    BuiltConcat(a + one, b, parse);
    BuiltConcat(a, one, parse);
  }

  /** When every file reads and parses, the i-th record built is the i-th file's. */
  lemma {:induction false} BuiltAllExtracted(items: seq<Item>, parse: Bytes -> Parsed)
    requires forall i :: 0 <= i < |items| ==> items[i].Visit? && Extract(items[i].file, parse).Some?
    ensures |Built(items, parse)| == |items|
    ensures forall i :: 0 <= i < |items| ==> Built(items, parse)[i] == Extract(items[i].file, parse).value
  {
    if items != [] {
      assert forall i :: 0 <= i < |items[1..]| ==> items[1..][i] == items[i + 1];
      BuiltAllExtracted(items[1..], parse);
    }
  }

  /**
   * Failure isolation in CREATE mode: of K files of which only the j-th
   * fails, the walk completes with K - 1 new records, none from the j-th.
   */
  lemma IsolatedFailure(s: seq<Record>, items: seq<Item>, j: nat, parse: Bytes -> Parsed)
    requires j < |items|
    requires forall i :: 0 <= i < |items| ==> items[i].Visit?
    requires forall i :: 0 <= i < |items| ==> (Extract(items[i].file, parse).None? <==> i == j)
    ensures WalkSpec(Create, s, items, parse).Completed?
    ensures |WalkSpec(Create, s, items, parse).store| == |s| + |items| - 1
    ensures WalkSpec(Create, s, items, parse).store[..|s|] == s
  {
    WalkCreate(s, items, parse);
    var a, b := items[..j], items[j + 1..];
    assert items == a + [Visit(items[j].file)] + b;
    BuiltSkipsFailure(a, items[j].file, b, parse);
    assert forall i :: 0 <= i < |a| ==> a[i] == items[i];
    BuiltAllExtracted(a, parse);
    assert forall i :: 0 <= i < |b| ==> b[i] == items[j + 1 + i];
    BuiltAllExtracted(b, parse);
    assert |Built(items, parse)| == |items| - 1;
    assert (s + Built(items, parse))[..|s|] == s;
  }

  /** `indexDoc`: read and parse the file, build its record, add or update by the writer's mode. */
  method IndexDoc(w: Writer, file: FileEntry, parse: Bytes -> Parsed) returns (ok: bool)
    requires !w.closed
    modifies w
    ensures ok == IndexDocSpec(w.mode, old(w.records), file, parse).Some?
    ensures w.records == IndexDocSpec(w.mode, old(w.records), file, parse).GetOr(old(w.records))
    ensures !w.closed
  {
    if file.content.None? {
      return false;
    }
    var parsed := parse(file.content.value);
    if parsed.ParseFail? {
      return false;
    }
    var doc := BuildRecord(file.path, file.lastModified, parsed.doc);
    if w.mode == Create {
      w.AddDocument(doc);
    } else {
      w.UpdateDocument(file.path, doc);
    }
    ok := true;
  }

  /** `indexDocs`: the walk of a directory, or `indexDoc` of a single file. */
  method IndexDocs(w: Writer, node: Node, parse: Bytes -> Parsed) returns (r: Ingested)
    requires !w.closed
    modifies w
    ensures r == IngestSpec(w.mode, old(w.records), node, parse)
    ensures w.records == r.store && !w.closed
  {
    match node
    case RegularFile(f) =>
      var ok := IndexDoc(w, f, parse);
      r := if ok then Completed(w.records) else Escaped(w.records, f.path);
    case Directory(items) =>
      var i := 0;
      while i < |items|
        invariant 0 <= i <= |items|
        invariant !w.closed
        invariant WalkSpec(w.mode, old(w.records), items, parse) == WalkSpec(w.mode, w.records, items[i..], parse)
      {
        assert items[i..][0] == items[i] && items[i..][1..] == items[i + 1..];
        match items[i]
        case VisitFailed(p) =>
          return Escaped(w.records, p);
        case Visit(f) =>
          var _ := IndexDoc(w, f, parse);
        i := i + 1;
      }
      r := Completed(w.records);
  }
}
