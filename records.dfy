/**
 * The document `indexDoc` builds for one file: its path as the exact-match
 * key, its last-modified time, and the searchable text made of the parsed
 * title and body joined by a newline.
 */
module Records {
  import opened Wrappers

  /** The three fields of an indexed document. */
  datatype Record = Record(path: string, modified: int, contents: string)

  /** What the HTML parser returns; Java allows either string to be null. */
  datatype DocData = DocData(title: Option<string>, body: Option<string>)

  /** Java's string conversion of an operand of `+`: null becomes "null". */
  function JavaText(s: Option<string>): string {
    match s
    case Some(v) => v
    case None => "null"
  }

  /** The text of the `contents` field: title, one newline, body. */
  function ComposeContents(title: string, body: string): string {
    title + "\n" + body
  }

  /** The document built for `file`, last modified at `lastModified`, from the parser's output. */
  function BuildRecord(file: string, lastModified: int, doc: DocData): Record {
    Record(file, lastModified, ComposeContents(JavaText(doc.title), JavaText(doc.body)))
  }

  /** Position of the first newline of `s`, or `|s|` when it has none. */
  function FirstNewline(s: string): (k: nat)
    ensures k <= |s|
    ensures forall j :: 0 <= j < k ==> s[j] != '\n'
    ensures k < |s| ==> s[k] == '\n'
  {
    if s == [] then 0
    else if s[0] == '\n' then 0
    else 1 + FirstNewline(s[1..])
  }

  /** Cuts a `contents` text at its first newline into title and body. */
  function SplitContents(c: string): (r: (string, string))
    requires '\n' in c
    ensures '\n' !in r.0
  {
    var k := FirstNewline(c);
    var j :| 0 <= j < |c| && c[j] == '\n';
    assert k <= j < |c|;
    assert forall j :: 0 <= j < |c[..k]| ==> c[..k][j] != '\n';
    (c[..k], c[k + 1..])
  }

  /** A title without a newline and any body are recovered from the composed text. */
  lemma ComposeThenSplit(title: string, body: string)
    requires '\n' !in title
    ensures '\n' in ComposeContents(title, body)
    ensures SplitContents(ComposeContents(title, body)) == (title, body)
  {
    var c := ComposeContents(title, body);
    assert c[|title|] == '\n';
    var k := FirstNewline(c);
    assert forall j :: 0 <= j < |title| ==> c[j] == title[j];
    assert k == |title|;
    assert c[..k] == title;
    assert c[k + 1..] == body;
  }

  /** Every text holding a newline is the composition of its split. */
  lemma SplitThenCompose(c: string)
    requires '\n' in c
    ensures ComposeContents(SplitContents(c).0, SplitContents(c).1) == c
  {
    var k := FirstNewline(c);
    var (t, b) := SplitContents(c);
    assert t == c[..k] && b == c[k + 1..];
    assert c == c[..k] + [c[k]] + c[k + 1..];
  }

  /**
   * The built document is keyed by the file's path, carries the given
   * modification time, and its contents give back exactly the parser's
   * title and body.
   */
  lemma BuildRecordFields(file: string, lastModified: int, title: string, body: string)
    requires '\n' !in title
    ensures BuildRecord(file, lastModified, DocData(Some(title), Some(body))).path == file
    ensures BuildRecord(file, lastModified, DocData(Some(title), Some(body))).modified == lastModified
    ensures '\n' in BuildRecord(file, lastModified, DocData(Some(title), Some(body))).contents
    ensures SplitContents(BuildRecord(file, lastModified, DocData(Some(title), Some(body))).contents) == (title, body)
  {
    ComposeThenSplit(title, body);
  }

  /** A null title is indexed as the four letters "null" before the newline. */
  lemma BuildRecordNullTitle(file: string, lastModified: int, body: string)
    ensures SplitContents(BuildRecord(file, lastModified, DocData(None, Some(body))).contents) == ("null", body)
  {
    ComposeThenSplit("null", body);
  }

  /** The composition of "Hello" and "World". */
  lemma ComposeHelloWorld()
    ensures ComposeContents("Hello", "World") == "Hello\nWorld"
  {
  }
}
