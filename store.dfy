/**
 * The index as an abstract store of records, and the two ways `indexDoc`
 * submits a record to it: `addDocument` appends, `updateDocument` removes
 * every record whose path equals the key and then adds the new one.
 */
module IndexStore {
  import opened Records

  /** Lucene's `IndexWriterConfig.OpenMode`. */
  datatype OpenMode = Create | Append | CreateOrAppend

  /** The open mode `main` configures from its `create` flag. */
  function SelectMode(create: bool): (m: OpenMode)
    ensures m != Append
    ensures m == Create <==> create
    ensures m == CreateOrAppend <==> !create
  {
    if create then Create else CreateOrAppend
  }

  /** The records of `s` keyed by `p`, in store order. */
  function RecordsAt(s: seq<Record>, p: string): seq<Record> {
    if s == [] then []
    else (if s[0].path == p then [s[0]] else []) + RecordsAt(s[1..], p)
  }

  /** The records of `s` not keyed by `p`, in store order. */
  function WithoutPath(s: seq<Record>, p: string): seq<Record> {
    if s == [] then []
    else (if s[0].path == p then [] else [s[0]]) + WithoutPath(s[1..], p)
  }

  /** The effect of `updateDocument(new Term("path", key), r)`. */
  function Replaced(s: seq<Record>, key: string, r: Record): seq<Record> {
    WithoutPath(s, key) + [r]
  }

  /** The store a writer starts from: CREATE discards the existing index. */
  function InitialStore(mode: OpenMode, prior: seq<Record>): seq<Record> {
    if mode == Create then [] else prior
  }

  /** The store after `indexDoc` submits `r` under `mode`. */
  function Submit(mode: OpenMode, s: seq<Record>, r: Record): seq<Record> {
    if mode == Create then s + [r] else Replaced(s, r.path, r)
  }

  /** No path keys more than one record. */
  ghost predicate UniquePaths(s: seq<Record>) {
    forall p :: |RecordsAt(s, p)| <= 1
  }

  lemma {:induction false} RecordsAtConcat(a: seq<Record>, b: seq<Record>, p: string)
    ensures RecordsAt(a + b, p) == RecordsAt(a, p) + RecordsAt(b, p)
  {
    if a != [] {
      assert (a + b)[1..] == a[1..] + b;
      RecordsAtConcat(a[1..], b, p);
    } else {
      assert a + b == b;
    }
  }

  lemma {:induction false} WithoutPathConcat(a: seq<Record>, b: seq<Record>, p: string)
    ensures WithoutPath(a + b, p) == WithoutPath(a, p) + WithoutPath(b, p)
  {
    if a != [] {
      assert (a + b)[1..] == a[1..] + b;
      WithoutPathConcat(a[1..], b, p);
    } else {
      assert a + b == b;
    }
  }

  /** Removing the records keyed by `p` removes all of them and keeps every other key's records. */
  lemma {:induction false} RecordsAtWithoutPath(s: seq<Record>, p: string, q: string)
    ensures RecordsAt(WithoutPath(s, p), q) == if q == p then [] else RecordsAt(s, q)
  {
    if s != [] {
      RecordsAtWithoutPath(s[1..], p, q);
      RecordsAtConcat(if s[0].path == p then [] else [s[0]], WithoutPath(s[1..], p), q);
    }
  }

  /** Removing the records keyed by `p` twice is removing them once. */
  lemma {:induction false} WithoutPathTwice(s: seq<Record>, p: string)
    ensures WithoutPath(WithoutPath(s, p), p) == WithoutPath(s, p)
  {
    if s != [] {
      WithoutPathTwice(s[1..], p);
      WithoutPathConcat(if s[0].path == p then [] else [s[0]], WithoutPath(s[1..], p), p);
    }
  }

  /**
   * After an update with `r`, exactly one record has `r`'s path and it is
   * `r`; every other path keeps exactly the records it had.
   */
  lemma ReplacedRecordsAt(s: seq<Record>, r: Record, q: string)
    ensures RecordsAt(Replaced(s, r.path, r), q) == if q == r.path then [r] else RecordsAt(s, q)
  {
    RecordsAtConcat(WithoutPath(s, r.path), [r], q);
    RecordsAtWithoutPath(s, r.path, q);
  }

  /** Submitting the same record twice in update mode gives the store of submitting it once. */
  lemma ReplacedIdempotent(s: seq<Record>, r: Record)
    ensures Replaced(Replaced(s, r.path, r), r.path, r) == Replaced(s, r.path, r)
  {
    WithoutPathConcat(WithoutPath(s, r.path), [r], r.path);
    WithoutPathTwice(s, r.path);
  }

  /** Updates keep paths unique. */
  lemma ReplacedKeepsUnique(s: seq<Record>, r: Record)
    requires UniquePaths(s)
    ensures UniquePaths(Replaced(s, r.path, r))
  {
    forall q ensures |RecordsAt(Replaced(s, r.path, r), q)| <= 1 {
      ReplacedRecordsAt(s, r, q);
    }
  }

  /** An add in CREATE mode keeps every earlier record where it was and puts `r` last. */
  lemma SubmitCreate(s: seq<Record>, r: Record)
    ensures |Submit(Create, s, r)| == |s| + 1
    ensures Submit(Create, s, r)[..|s|] == s && Submit(Create, s, r)[|s|] == r
  {
  }

  /** In either update mode a submission keyed by `r.path` replaces, never duplicates. */
  lemma SubmitUpdate(mode: OpenMode, s: seq<Record>, r: Record, q: string)
    requires mode != Create
    ensures RecordsAt(Submit(mode, s, r), q) == if q == r.path then [r] else RecordsAt(s, q)
  {
    ReplacedRecordsAt(s, r, q);
  }

  /**
   * Lucene's `IndexWriter` as far as this program uses it: a fixed open
   * mode, the records submitted so far, and whether it has been closed.
   */
  class Writer {
    const mode: OpenMode
    var records: seq<Record>
    var closed: bool

    /** `new IndexWriter(dir, iwc)` over an index that held `prior`. */
    constructor (mode: OpenMode, prior: seq<Record>)
      ensures this.mode == mode && records == InitialStore(mode, prior) && !closed
    {
      this.mode := mode;
      records := InitialStore(mode, prior);
      closed := false;
    }

    /** `addDocument(doc)`. */
    method AddDocument(r: Record)
      requires !closed
      modifies this
      ensures records == old(records) + [r] && !closed
    {
      records := records + [r];
    }

    /** `updateDocument(new Term("path", key), doc)`. */
    method UpdateDocument(key: string, r: Record)
      requires !closed
      modifies this
      ensures records == Replaced(old(records), key, r) && !closed
    {
      records := Replaced(records, key, r);
    }

    /** `close()`: the records submitted stay as they are. */
    method Close()
      requires !closed
      modifies this
      ensures closed && records == old(records)
    {
      closed := true;
    }
  }
}
