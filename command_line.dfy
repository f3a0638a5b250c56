/**
 * The left-to-right scan of `main`'s arguments. `-index X` and `-docs X`
 * take the next argument as their value, `-update` turns off `create`,
 * and anything else is skipped. The meaning of a scan is given in two
 * steps: `Tokenize` groups the arguments as the loop consumes them, and
 * `Settings` reads the configuration off the groups (the last `-index`,
 * the last `-docs`, whether any `-update` occurred).
 */
module CommandLine {
  import opened Wrappers

  const DefaultIndexPath: string := "index"

  /** The three locals the scan sets: `indexPath`, `docsPath` (null at first) and `create`. */
  datatype Config = Config(indexPath: string, docsPath: Option<string>, create: bool)

  /** One flag with its value, or one argument the scan passes over. */
  datatype Token = IndexFlag(value: string) | DocsFlag(value: string) | UpdateFlag | Ignored(arg: string)

  /** A complete grouping, or the position of a value flag with no argument after it. */
  datatype Tokens = Tokens(tokens: seq<Token>) | Dangling(flagAt: nat)

  /**
   * What the scan ends with: the configuration, or the out-of-range index
   * `args[i+1]` throws `ArrayIndexOutOfBoundsException` for.
   */
  datatype ScanResult = Parsed(config: Config) | OutOfBounds(index: nat)

  /** The flags that consume the next argument. */
  predicate TakesValue(arg: string) {
    arg == "-index" || arg == "-docs"
  }

  /** The arguments the scan recognises. */
  predicate IsFlag(arg: string) {
    TakesValue(arg) || arg == "-update"
  }

  /** `prefix` followed by `rest`, where `rest` groups the arguments from position `width` on. */
  function Join(prefix: seq<Token>, width: nat, rest: Tokens): Tokens {
    match rest
    case Tokens(ts) => Tokens(prefix + ts)
    case Dangling(k) => Dangling(width + k)
  }

  /** How many arguments a group starting with `arg` spans. */
  function Width(arg: string): nat {
    if TakesValue(arg) then 2 else 1
  }

  /** The group at the front of `args`. */
  function Head(args: seq<string>): Token
    requires args != [] && Width(args[0]) <= |args|
  {
    if args[0] == "-index" then IndexFlag(args[1])
    else if args[0] == "-docs" then DocsFlag(args[1])
    else if args[0] == "-update" then UpdateFlag
    else Ignored(args[0])
  }

  /** The grouping of `args` that the loop's steps follow. */
  function Tokenize(args: seq<string>): Tokens
    decreases |args|
  {
    if args == [] then Tokens([])
    else if |args| < Width(args[0]) then Dangling(0)
    else Join([Head(args)], Width(args[0]), Tokenize(args[Width(args[0])..]))
  }

  /** The arguments one group stands for. */
  function RenderToken(t: Token): seq<string> {
    match t
    case IndexFlag(v) => ["-index", v]
    case DocsFlag(v) => ["-docs", v]
    case UpdateFlag => ["-update"]
    case Ignored(a) => [a]
  }

  /** The arguments a grouping stands for. */
  function Render(ts: seq<Token>): seq<string> {
    if ts == [] then [] else RenderToken(ts[0]) + Render(ts[1..])
  }

  /** The groupings `Tokenize` can produce: an ignored argument is never a flag. */
  predicate Canonical(ts: seq<Token>) {
    forall i :: 0 <= i < |ts| && ts[i].Ignored? ==> !IsFlag(ts[i].arg)
  }

  /** The value of the last `-index`, if any. */
  function LastIndex(ts: seq<Token>): Option<string> {
    if ts == [] then None
    else if ts[|ts| - 1].IndexFlag? then Some(ts[|ts| - 1].value)
    else LastIndex(ts[..|ts| - 1])
  }

  /** The value of the last `-docs`, if any. */
  function LastDocs(ts: seq<Token>): Option<string> {
    if ts == [] then None
    else if ts[|ts| - 1].DocsFlag? then Some(ts[|ts| - 1].value)
    else LastDocs(ts[..|ts| - 1])
  }

  /** The configuration a grouping selects, starting from the defaults. */
  function Settings(ts: seq<Token>): Config {
    Config(LastIndex(ts).GetOr(DefaultIndexPath), LastDocs(ts), UpdateFlag !in ts)
  }

  /** The outcome of scanning `args`. */
  function Scan(args: seq<string>): ScanResult {
    match Tokenize(args)
    case Tokens(ts) => Parsed(Settings(ts))
    case Dangling(k) => OutOfBounds(k + 1)
  }

  lemma JoinJoin(a: seq<Token>, m: nat, b: seq<Token>, k: nat, r: Tokens)
    ensures Join(a, m, Join(b, k, r)) == Join(a + b, m + k, r)
  {
    match r
    case Tokens(ts) => assert a + (b + ts) == (a + b) + ts;
    case Dangling(_) =>
  }

  /** The front group of `p + q` is that of `p` when `p` holds all of it. */
  lemma FrontOfConcat(p: seq<string>, q: seq<string>)
    requires p != [] && Width(p[0]) <= |p|
    ensures (p + q)[0] == p[0] && Head(p + q) == Head(p)
    ensures (p + q)[Width(p[0])..] == p[Width(p[0])..] + q
  {
    assert (p + q)[0] == p[0];
    if TakesValue(p[0]) {
      assert (p + q)[1] == p[1];
    }
  }

  /** The grouping of a concatenation whose first part groups completely. */
  lemma {:induction false} TokenizeConcat(p: seq<string>, q: seq<string>, tp: seq<Token>)
    requires Tokenize(p) == Tokens(tp)
    ensures Tokenize(p + q) == Join(tp, |p|, Tokenize(q))
    decreases |p|
  {
    if p == [] {
      assert p + q == q;
      match Tokenize(q)
      case Tokens(tq) => assert tp + tq == tq;
      case Dangling(k) =>
    } else {
      var n := Width(p[0]);
      FrontOfConcat(p, q);
      var rest := Tokenize(p[n..]).tokens;
      TokenizeConcat(p[n..], q, rest);
      JoinJoin([Head(p)], n, rest, |p| - n, Tokenize(q));
    }
  }

  /** Every argument is accounted for: a complete grouping renders back to the arguments. */
  lemma {:induction false} RenderTokenize(args: seq<string>)
    requires Tokenize(args).Tokens?
    ensures Render(Tokenize(args).tokens) == args
    ensures Canonical(Tokenize(args).tokens)
    decreases |args|
  {
    if args != [] {
      var n := Width(args[0]);
      RenderTokenize(args[n..]);
      assert args == args[..n] + args[n..];
    }
  }

  /** A group that is not an ignored flag is read back as itself, whatever follows it. */
  lemma HeadOfRendered(t: Token, rest: seq<string>)
    requires t.Ignored? ==> !IsFlag(t.arg)
    ensures RenderToken(t) != [] && Width(RenderToken(t)[0]) == |RenderToken(t)|
    ensures Head(RenderToken(t) + rest) == t
    ensures (RenderToken(t) + rest)[|RenderToken(t)|..] == rest
  {
    var r := RenderToken(t);
    assert (r + rest)[0] == r[0];
    if |r| == 2 {
      assert (r + rest)[1] == r[1];
    }
  }

  /** Conversely, the arguments a canonical grouping stands for group back into it. */
  lemma {:induction false} TokenizeRender(ts: seq<Token>)
    requires Canonical(ts)
    ensures Tokenize(Render(ts)) == Tokens(ts)
  {
    if ts != [] {
      assert Canonical(ts[1..]) by {
        forall i | 0 <= i < |ts[1..]| && ts[1..][i].Ignored? ensures !IsFlag(ts[1..][i].arg) {
          assert ts[1..][i] == ts[i + 1];
        }
      }
      TokenizeRender(ts[1..]);
      HeadOfRendered(ts[0], Render(ts[1..]));
      assert ts == [ts[0]] + ts[1..];
    }
  }

  /**
   * The bounds hazard: the scan reads past the end exactly when the last
   * argument is `-index` or `-docs` and the arguments before it group
   * completely (so that it is read as a flag, not as a value); the flag
   * is then the last argument.
   */
  lemma DanglingIff(p: seq<string>, flag: string)
    ensures Tokenize(p + [flag]).Dangling? <==> TakesValue(flag) && Tokenize(p).Tokens?
    ensures Tokenize(p + [flag]).Dangling? ==> Tokenize(p + [flag]).flagAt == |p|
  {
    if TakesValue(flag) && Tokenize(p).Tokens? {
      DanglingLast(p, flag);
    } else {
      DanglingAt(p, flag);
    }
  }

  /** A value flag after arguments that group completely dangles. */
  lemma DanglingLast(p: seq<string>, flag: string)
    requires TakesValue(flag) && Tokenize(p).Tokens?
    ensures Tokenize(p + [flag]) == Dangling(|p|)
  {
    assert Tokenize([flag]) == Dangling(0);
    TokenizeConcat(p, [flag], Tokenize(p).tokens);
  }

  /** A dangling flag is the last argument, it takes a value, and the arguments before it group completely. */
  lemma {:induction false} DanglingAt(p: seq<string>, flag: string)
    ensures Tokenize(p + [flag]).Dangling? ==>
      Tokenize(p + [flag]).flagAt == |p| && TakesValue(flag) && Tokenize(p).Tokens?
    decreases |p|
  {
    var args := p + [flag];
    if p == [] {
      assert args == [flag];
    } else {
      var n := Width(p[0]);
      assert args[0] == p[0];
      if n <= |p| {
        assert args[n..] == p[n..] + [flag];
        assert Head(args) == Head(p);
        DanglingAt(p[n..], flag);
      } else {
        assert args[n..] == [];
      }
    }
  }

  lemma {:induction false} LastIndexConcat(a: seq<Token>, b: seq<Token>)
    ensures LastIndex(a + b) == if LastIndex(b).Some? then LastIndex(b) else LastIndex(a)
  {
    if b == [] {
      assert a + b == a;
    } else {
      assert (a + b)[..|a + b| - 1] == a + b[..|b| - 1];
      LastIndexConcat(a, b[..|b| - 1]);
    }
  }

  lemma {:induction false} LastDocsConcat(a: seq<Token>, b: seq<Token>)
    ensures LastDocs(a + b) == if LastDocs(b).Some? then LastDocs(b) else LastDocs(a)
  {
    if b == [] {
      assert a + b == a;
    } else {
      assert (a + b)[..|a + b| - 1] == a + b[..|b| - 1];
      LastDocsConcat(a, b[..|b| - 1]);
    }
  }

  /** Settings of a grouping extended by one token. */
  lemma SettingsSnoc(ts: seq<Token>, t: Token)
    ensures Settings(ts + [t]).indexPath == if t.IndexFlag? then t.value else Settings(ts).indexPath
    ensures Settings(ts + [t]).docsPath == if t.DocsFlag? then Some(t.value) else Settings(ts).docsPath
    ensures Settings(ts + [t]).create == (Settings(ts).create && !t.UpdateFlag?)
  {
    assert (ts + [t])[..|ts|] == ts;
  }

  /** With no flag among the arguments the scan yields the defaults: index "index", no docs path, create. */
  lemma {:induction false} NoFlagsGiveDefaults(args: seq<string>)
    requires forall i :: 0 <= i < |args| ==> !IsFlag(args[i])
    ensures Scan(args) == Parsed(Config(DefaultIndexPath, None, true))
  {
    var ts := seq(|args|, i requires 0 <= i < |args| => Ignored(args[i]));
    assert Canonical(ts);
    assert Render(ts) == args by { RenderIgnored(args); }
    TokenizeRender(ts);
    assert UpdateFlag !in ts;
    NoIndexDocs(ts);
  }

  lemma {:induction false} RenderIgnored(args: seq<string>)
    ensures Render(seq(|args|, i requires 0 <= i < |args| => Ignored(args[i]))) == args
  {
    if args != [] {
      var ts := seq(|args|, i requires 0 <= i < |args| => Ignored(args[i]));
      assert ts[1..] == seq(|args[1..]|, i requires 0 <= i < |args[1..]| => Ignored(args[1..][i]));
      RenderIgnored(args[1..]);
      assert args == [args[0]] + args[1..];
    }
  }

  lemma {:induction false} NoIndexDocs(ts: seq<Token>)
    requires forall i :: 0 <= i < |ts| ==> ts[i].Ignored?
    ensures LastIndex(ts) == None && LastDocs(ts) == None
  {
    if ts != [] {
      NoIndexDocs(ts[..|ts| - 1]);
    }
  }

  /**
   * A later `-index` overrides an earlier one: after a prefix that groups
   * completely, `-index x` followed by arguments with no `-index` of their
   * own selects `x`, whatever the prefix said.
   */
  lemma LaterIndexWins(a: seq<string>, x: string, b: seq<string>)
    requires Tokenize(a).Tokens? && Tokenize(b).Tokens?
    requires LastIndex(Tokenize(b).tokens) == None
    ensures Scan(a + ["-index", x] + b).Parsed?
    ensures Scan(a + ["-index", x] + b).config.indexPath == x
  {
    var ta := Tokenize(a).tokens;
    assert Tokenize(["-index", x] + b) == Join([IndexFlag(x)], 2, Tokenize(b)) by {
      assert (["-index", x] + b)[2..] == b;
    }
    TokenizeConcat(a, ["-index", x] + b, ta);
    assert a + (["-index", x] + b) == a + ["-index", x] + b;
    var tb := Tokenize(b).tokens;
    assert ta + ([IndexFlag(x)] + tb) == (ta + [IndexFlag(x)]) + tb;
    LastIndexConcat(ta + [IndexFlag(x)], tb);
    SettingsSnoc(ta, IndexFlag(x));
  }

  /**
   * A later `-docs` overrides an earlier one, in the same way.
   */
  lemma LaterDocsWins(a: seq<string>, x: string, b: seq<string>)
    requires Tokenize(a).Tokens? && Tokenize(b).Tokens?
    requires LastDocs(Tokenize(b).tokens) == None
    ensures Scan(a + ["-docs", x] + b).Parsed?
    ensures Scan(a + ["-docs", x] + b).config.docsPath == Some(x)
  {
    var ta := Tokenize(a).tokens;
    assert Tokenize(["-docs", x] + b) == Join([DocsFlag(x)], 2, Tokenize(b)) by {
      assert (["-docs", x] + b)[2..] == b;
    }
    TokenizeConcat(a, ["-docs", x] + b, ta);
    assert a + (["-docs", x] + b) == a + ["-docs", x] + b;
    var tb := Tokenize(b).tokens;
    assert ta + ([DocsFlag(x)] + tb) == (ta + [DocsFlag(x)]) + tb;
    LastDocsConcat(ta + [DocsFlag(x)], tb);
    SettingsSnoc(ta, DocsFlag(x));
  }

  /** An ignored group selects nothing. */
  lemma SettingsSkipIgnored(ta: seq<Token>, x: string, tb: seq<Token>)
    ensures Settings(ta + [Ignored(x)] + tb) == Settings(ta + tb)
  {
    LastIndexConcat(ta + [Ignored(x)], tb);
    LastIndexConcat(ta, tb);
    LastDocsConcat(ta + [Ignored(x)], tb);
    LastDocsConcat(ta, tb);
    SettingsSnoc(ta, Ignored(x));
    assert UpdateFlag in ta + [Ignored(x)] + tb <==> UpdateFlag in ta + tb;
  }

  /**
   * Unrecognised arguments are ignored: inserting one where the scan
   * expects a flag changes nothing.
   */
  lemma UnrecognisedIgnored(a: seq<string>, x: string, b: seq<string>)
    requires Tokenize(a).Tokens?
    requires !IsFlag(x)
    ensures Scan(a + [x] + b).Parsed? <==> Scan(a + b).Parsed?
    ensures Scan(a + b).Parsed? ==> Scan(a + [x] + b).config == Scan(a + b).config
  {
    var ta := Tokenize(a).tokens;
    assert Tokenize([x] + b) == Join([Ignored(x)], 1, Tokenize(b)) by {
      assert ([x] + b)[1..] == b;
    }
    TokenizeConcat(a, [x] + b, ta);
    TokenizeConcat(a, b, ta);
    assert a + ([x] + b) == a + [x] + b;
    if Tokenize(b).Tokens? {
      var tb := Tokenize(b).tokens;
      assert ta + ([Ignored(x)] + tb) == ta + [Ignored(x)] + tb;
      SettingsSkipIgnored(ta, x, tb);
    }
  }

  /** `-update` anywhere it is read as a flag turns `create` off. */
  lemma UpdateClearsCreate(a: seq<string>, b: seq<string>)
    requires Tokenize(a).Tokens? && Tokenize(b).Tokens?
    ensures Scan(a + ["-update"] + b).Parsed? && !Scan(a + ["-update"] + b).config.create
  {
    var ta := Tokenize(a).tokens;
    assert Tokenize(["-update"] + b) == Join([UpdateFlag], 1, Tokenize(b)) by {
      assert (["-update"] + b)[1..] == b;
    }
    TokenizeConcat(a, ["-update"] + b, ta);
    assert a + (["-update"] + b) == a + ["-update"] + b;
    assert (ta + ([UpdateFlag] + Tokenize(b).tokens))[|ta|] == UpdateFlag;
  }

  /** A value is consumed, never read as a flag: `-docs -update` sets the docs path to "-update" and keeps `create`. */
  lemma ValueIsNotAFlag()
    ensures Scan(["-docs", "-update"]) == Parsed(Config(DefaultIndexPath, Some("-update"), true))
    ensures Scan(["-docs", "-index"]) == Parsed(Config(DefaultIndexPath, Some("-index"), true))
  {
    assert ["-docs", "-update"][2..] == [];
    assert ["-docs", "-index"][2..] == [];
    assert [DocsFlag("-update")][..0] == [];
    assert [DocsFlag("-index")][..0] == [];
  }

  /**
   * The grouping of `args` seen from position `i`, as the loop sees it:
   * `ts` groups the arguments before `i` and the rest is still to come.
   */
  ghost predicate ScannedTo(args: seq<string>, i: nat, ts: seq<Token>)
    requires i <= |args|
  {
    Tokenize(args) == Join(ts, i, Tokenize(args[i..]))
  }

  /** Moving past the group at position `i` keeps the view. */
  lemma Advance(args: seq<string>, i: nat, ts: seq<Token>)
    requires i < |args| && i + Width(args[i]) <= |args|
    requires ScannedTo(args, i, ts)
    ensures ScannedTo(args, i + Width(args[i]), ts + [Head(args[i..])])
  {
    var w := Width(args[i]);
    assert args[i..][0] == args[i];
    assert args[i..][w..] == args[i + w..];
    JoinJoin(ts, i, [Head(args[i..])], w, Tokenize(args[i + w..]));
  }

  /** A step over a flag and its value at position `i`. */
  lemma ValueStep(args: seq<string>, i: nat, ts: seq<Token>)
    requires i + 1 < |args| && TakesValue(args[i])
    requires ScannedTo(args, i, ts)
    ensures var t := if args[i] == "-index" then IndexFlag(args[i + 1]) else DocsFlag(args[i + 1]);
      ScannedTo(args, i + 2, ts + [t]) &&
      Settings(ts + [t]) == if t.IndexFlag? then Settings(ts).(indexPath := t.value)
                           else Settings(ts).(docsPath := Some(t.value))
  {
    assert args[i..][0] == args[i] && args[i..][1] == args[i + 1];
    Advance(args, i, ts);
    SettingsSnoc(ts, Head(args[i..]));
  }

  /** A step over one argument at position `i` that takes no value. */
  lemma SingleStep(args: seq<string>, i: nat, ts: seq<Token>)
    requires i < |args| && !TakesValue(args[i])
    requires ScannedTo(args, i, ts)
    ensures var t := if args[i] == "-update" then UpdateFlag else Ignored(args[i]);
      ScannedTo(args, i + 1, ts + [t]) &&
      Settings(ts + [t]) == if t.UpdateFlag? then Settings(ts).(create := false) else Settings(ts)
  {
    assert args[i..][0] == args[i];
    Advance(args, i, ts);
    SettingsSnoc(ts, Head(args[i..]));
  }

  /** The scan loop of `main`; `cfg` holds its three locals. */
  method ParseArgs(args: seq<string>) returns (r: ScanResult)
    ensures r == Scan(args)
  {
    var cfg := Config(DefaultIndexPath, None, true);
    ghost var ts: seq<Token> := [];
    var i := 0;
    while i < |args|
      invariant 0 <= i <= |args|
      invariant ScannedTo(args, i, ts)
      invariant cfg == Settings(ts)
    {
      if args[i] == "-index" || args[i] == "-docs" {
        if i + 1 >= |args| {
          assert args[i..][0] == args[i];
          return OutOfBounds(i + 1);
        }
        ValueStep(args, i, ts);
        if args[i] == "-index" {
          cfg := cfg.(indexPath := args[i + 1]);
          ts := ts + [IndexFlag(args[i + 1])];
        } else {
          cfg := cfg.(docsPath := Some(args[i + 1]));
          ts := ts + [DocsFlag(args[i + 1])];
        }
        i := i + 1;
      } else {
        SingleStep(args, i, ts);
        if args[i] == "-update" {
          cfg := cfg.(create := false);
          ts := ts + [UpdateFlag];
        } else {
          ts := ts + [Ignored(args[i])];
        }
      }
      i := i + 1;
    }
    assert ts + [] == ts;
    r := Parsed(cfg);
  }
}
