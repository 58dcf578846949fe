/**
 * `ReadData` of `lib/file-process.go`: a pre-order walk of the tree under the
 * scan root that prunes ignored directories, skips ignored files and appends one
 * framed record per kept file to a growing document.
 *
 * A directory tree is a `Node`; a directory's children are in the order in which
 * `filepath.WalkDir` visits them (lexical by name). Paths are built as the walk
 * builds them: the root is the scan root itself, a child's path is its parent's
 * path, `/`, and its name.
 */
module TreeCollector {
  import opened Wrappers
  import opened Strings
  import opened IgnoreRules

  datatype Node =
    | File(name: string, content: Option<string>)  // content: what os.ReadFile returns, None when it returns nothing
    | Dir(name: string, children: seq<Node>)
    | Unlistable(name: string)                      // a directory whose listing fails
  {
    predicate IsDir() {
      !File?
    }
  }

  /** `filepath.Rel(root, path)` for the paths the walk produces (paths outside the
      root do not occur; for them the model gives the empty string). */
  function RelPath(root: string, path: string): string {
    if path == root then "."
    else if root + "/" <= path then path[|root| + 1..]
    else ""
  }

  /** The framed record of one file: a `FileName:` line with the file's full path,
      a `Data:` line, the content and a blank line. */
  function Record(path: string, content: string): string {
    Header(path) + Body(content)
  }

  function Header(path: string): string {
    "FileName: " + path + "\n"
  }

  function Body(content: string): string {
    "Data:\n" + content + "\n\n"
  }

  /** The entry at `path` fails the ignore check; the root (relative path `.`) is never tested. */
  predicate Skipped(root: string, ignored: string -> bool, path: string) {
    var rel := RelPath(root, path);
    rel != "." && ignored(rel)
  }

  /** What a (partial) walk produces: the records appended, and whether it stopped on an error. */
  datatype Walk = Walk(doc: string, failed: bool)

  /** The walk of `n`, found at `path`. */
  function Collect(root: string, ignored: string -> bool, n: Node, path: string): Walk
    decreases n
  {
    if Skipped(root, ignored, path) then Walk("", false)
    else
      match n
      case File(_, content) => Walk(Record(path, content.GetOr("")), false)
      case Unlistable(_) => Walk("", true)
      case Dir(_, children) => CollectAll(root, ignored, children, path)
  }

  /** The walk of the children of the directory at `dir`, in order, up to the first error. */
  function CollectAll(root: string, ignored: string -> bool, kids: seq<Node>, dir: string): Walk
    decreases kids
  {
    if kids == [] then Walk("", false)
    else
      var w := CollectAll(root, ignored, kids[..|kids| - 1], dir);
      if w.failed then w
      else
        var last := kids[|kids| - 1];
        var v := Collect(root, ignored, last, dir + "/" + last.name);
        Walk(w.doc + v.doc, v.failed)
  }

  /** The document `ReadData` returns for the scan root `root`, the tree found there and its ignored file. */
  function Document(root: string, tree: Node, rulesFile: RulesFile): string {
    Collect(root, IgnoredBy(RulesOf(rulesFile)), tree, root).doc
  }

  /** What the walk callback tells `filepath.WalkDir`. */
  datatype Signal = Continue | SkipDir | Fail

  /** The state the walk callback captures: the scan root, the rules and the growing document. */
  class Collector {
    const root: string
    const rules: seq<string>
    /** The ignore check the callback applies, as a predicate on relative paths. */
    ghost const ignored: string -> bool := IgnoredBy(rules)
    var filesDatas: string

    constructor (root: string, rules: seq<string>)
      ensures this.root == root && this.rules == rules && filesDatas == ""
    {
      this.root := root;
      this.rules := rules;
      filesDatas := "";
    }

    /** The callback: `err` is the error `WalkDir` reports for `path` (a failed listing). */
    method Visit(path: string, d: Node, err: bool) returns (s: Signal)
      modifies this
      ensures err ==> s == Fail && filesDatas == old(filesDatas)
      ensures !err && Skipped(root, ignored, path) ==>
                s == (if d.IsDir() then SkipDir else Continue) && filesDatas == old(filesDatas)
      ensures !err && !Skipped(root, ignored, path) ==>
                && s == Continue
                && filesDatas == old(filesDatas) + if d.File? then Record(path, d.content.GetOr("")) else ""
    {
      if err {
        return Fail;
      }
      var relPath := RelPath(root, path);
      var skip := false;
      if relPath != "." {
        skip := IsIgnored(relPath, rules);
        assert ignored(relPath) == Ignored(relPath, rules);
      }
      if skip {
        if d.IsDir() {
          return SkipDir;
        }
        return Continue;
      }
      if !d.IsDir() {
        var content := d.content.GetOr("");
        filesDatas := filesDatas + Header(path);
        filesDatas := filesDatas + Body(content);
      }
      return Continue;
    }
  }

  /** `filepath.WalkDir`'s recursive step on the entry `n` at `path`: call the
      callback, and descend into a directory it did not skip. */
  method WalkDir(c: Collector, path: string, n: Node) returns (s: Signal)
    modifies c
    ensures c.filesDatas == old(c.filesDatas) + Collect(c.root, c.ignored, n, path).doc
    ensures s == if Collect(c.root, c.ignored, n, path).failed then Fail else Continue
    decreases n, 2
  {
    s := c.Visit(path, n, false);
    if s != Continue || !n.IsDir() {
      if s == SkipDir && n.IsDir() {
        return Continue;
      }
      return s;
    }
    s := Descend(c, path, n);
  }

  /** A directory the callback let through: list it and walk its children; a failed
      listing is reported to the callback, which stops the walk. */
  method Descend(c: Collector, path: string, n: Node) returns (s: Signal)
    requires n.IsDir() && !Skipped(c.root, c.ignored, path)
    modifies c
    ensures c.filesDatas == old(c.filesDatas) + Collect(c.root, c.ignored, n, path).doc
    ensures s == if Collect(c.root, c.ignored, n, path).failed then Fail else Continue
    decreases n, 1
  {
    match n {
      case Unlistable(_) =>
        s := c.Visit(path, n, true);
      case Dir(_, kids) =>
        s := WalkChildren(c, path, n, kids);
    }
  }

  /** The loop over the children of the directory `n` at `dir`: walk each child in
      order and stop at the first error. */
  method WalkChildren(c: Collector, dir: string, ghost n: Node, kids: seq<Node>) returns (s: Signal)
    requires n.Dir? && n.children == kids
    modifies c
    ensures c.filesDatas == old(c.filesDatas) + CollectAll(c.root, c.ignored, kids, dir).doc
    ensures s == if CollectAll(c.root, c.ignored, kids, dir).failed then Fail else Continue
    decreases n, 0
  {
    ghost var start := c.filesDatas;
    ghost var root, ignored := c.root, c.ignored;
    for i := 0 to |kids|
      invariant c.filesDatas == start + CollectAll(root, ignored, kids[..i], dir).doc
      invariant !CollectAll(root, ignored, kids[..i], dir).failed
    {
      var path := dir + "/" + kids[i].name;
      ghost var mid := c.filesDatas;
      var e := WalkDir(c, path, kids[i]);
      CollectAllStep(root, ignored, kids, dir, i, start, mid, c.filesDatas);
      if e != Continue {
        CollectAllStopsAtFailure(root, ignored, kids, dir, i + 1);
        return e;
      }
    }
    assert kids[..|kids|] == kids;
    return Continue;
  }

  /** Walking one more child extends the walk of the children before it: a document that
      held the walk of `kids[..i]` and then got the walk of `kids[i]` holds that of `kids[..i + 1]`. */
  lemma CollectAllStep(root: string, ignored: string -> bool, kids: seq<Node>, dir: string, i: nat,
                       start: string, mid: string, doc: string)
    requires i < |kids|
    requires !CollectAll(root, ignored, kids[..i], dir).failed
    requires mid == start + CollectAll(root, ignored, kids[..i], dir).doc
    requires doc == mid + Collect(root, ignored, kids[i], dir + "/" + kids[i].name).doc
    ensures doc == start + CollectAll(root, ignored, kids[..i + 1], dir).doc
    ensures CollectAll(root, ignored, kids[..i + 1], dir).failed == Collect(root, ignored, kids[i], dir + "/" + kids[i].name).failed
  {
    CollectAllExtend(root, ignored, kids, dir, i);
    AppendAssociates(start, CollectAll(root, ignored, kids[..i], dir).doc,
                     Collect(root, ignored, kids[i], dir + "/" + kids[i].name).doc);
  }

  lemma CollectAllExtend(root: string, ignored: string -> bool, kids: seq<Node>, dir: string, i: nat)
    requires i < |kids|
    requires !CollectAll(root, ignored, kids[..i], dir).failed
    ensures var v := Collect(root, ignored, kids[i], dir + "/" + kids[i].name);
            CollectAll(root, ignored, kids[..i + 1], dir) == Walk(CollectAll(root, ignored, kids[..i], dir).doc + v.doc, v.failed)
  {
    assert kids[..i + 1][..i] == kids[..i];
  }

  lemma AppendAssociates(a: string, b: string, c: string)
    ensures (a + b) + c == a + (b + c)
  {
  }

  /** Once the walk of some children has failed, later children change nothing. */
  lemma {:induction false} CollectAllStopsAtFailure(root: string, ignored: string -> bool, kids: seq<Node>, dir: string, i: nat)
    requires i <= |kids|
    requires CollectAll(root, ignored, kids[..i], dir).failed
    ensures CollectAll(root, ignored, kids, dir) == CollectAll(root, ignored, kids[..i], dir)
    decreases |kids| - i
  {
    if i < |kids| {
      var k := kids[..|kids| - 1];
      assert k[..i] == kids[..i];
      CollectAllStopsAtFailure(root, ignored, k, dir, i);
    } else {
      assert kids[..i] == kids;
    }
  }

  /** `ReadData` with the scan root, the tree found there and the result of reading
      `root + "/.gitignore"`: a rules-file error is only logged, and the walk goes on
      with whatever rules there are. */
  method ReadData(root: string, tree: Node, rulesFile: RulesFile) returns (filesDatas: string)
    ensures filesDatas == Document(root, tree, rulesFile)
  {
    var rules, _ := ParseGitIgnore(rulesFile);
    var c := new Collector(root, rules);
    var _ := WalkDir(c, root, tree);
    filesDatas := c.filesDatas;
  }

  // ---------------------------------------------------------------------------
  // An independent description of the document: the list of all entries of the
  // tree in pre-order, filtered by the ignore predicate, rendered record by record.

  datatype Kind = RegularFile(content: Option<string>) | Directory | BrokenDirectory

  /** An entry of the tree, named by the names on the way from the root to it. */
  datatype Entry = Entry(names: seq<string>, kind: Kind)

  function KindOf(n: Node): Kind {
    match n
    case File(_, content) => RegularFile(content)
    case Dir(_, _) => Directory
    case Unlistable(_) => BrokenDirectory
  }

  /** Every entry of `n` (found at `names`) in pre-order, pruning nothing. */
  function Entries(n: Node, names: seq<string>): seq<Entry>
    decreases n
  {
    [Entry(names, KindOf(n))] + match n
      case Dir(_, kids) => EntriesAll(kids, names)
      case _ => []
  }

  function EntriesAll(kids: seq<Node>, names: seq<string>): seq<Entry>
    decreases kids
  {
    if kids == [] then []
    else
      var last := kids[|kids| - 1];
      EntriesAll(kids[..|kids| - 1], names) + Entries(last, names + [last.name])
  }

  /** The path relative to the root of the entry named by `names`. */
  function RelOf(names: seq<string>): string {
    if names == [] then "." else Join(names, "/")
  }

  /** The full path of the entry named by `names`. */
  function FullPath(root: string, names: seq<string>): string {
    if names == [] then root else FullPath(root, names[..|names| - 1]) + "/" + names[|names| - 1]
  }

  /** The ignore check fails for the entry named by `names`. */
  predicate Pruned(ignored: string -> bool, names: seq<string>) {
    RelOf(names) != "." && ignored(RelOf(names))
  }

  /** An entry is collected when neither it nor any directory above it (the root aside) fails the check. */
  predicate Visible(ignored: string -> bool, e: Entry) {
    forall k | 1 <= k <= |e.names| :: !Pruned(ignored, e.names[..k])
  }

  function VisibleEntries(ignored: string -> bool, es: seq<Entry>): (r: seq<Entry>)
    ensures forall e | e in r :: e in es && Visible(ignored, e)
  {
    if es == [] then []
    else (if Visible(ignored, es[0]) then [es[0]] else []) + VisibleEntries(ignored, es[1..])
  }

  /** The records of the files among `es`, in order, up to the first broken directory. */
  function Render(root: string, es: seq<Entry>): Walk {
    if es == [] then Walk("", false)
    else
      match es[0].kind
      case RegularFile(content) =>
        var w := Render(root, es[1..]);
        Walk(Record(FullPath(root, es[0].names), content.GetOr("")) + w.doc, w.failed)
      case Directory => Render(root, es[1..])
      case BrokenDirectory => Walk("", true)
  }

  lemma {:induction false} VisibleEntriesConcat(ignored: string -> bool, a: seq<Entry>, b: seq<Entry>)
    ensures VisibleEntries(ignored, a + b) == VisibleEntries(ignored, a) + VisibleEntries(ignored, b)
  {
    if a != [] {
      assert (a + b)[0] == a[0];
      assert (a + b)[1..] == a[1..] + b;
      VisibleEntriesConcat(ignored, a[1..], b);
    } else {
      assert a + b == b;
    }
  }

  lemma {:induction false} RenderConcat(root: string, a: seq<Entry>, b: seq<Entry>)
    ensures Render(root, a + b) ==
            if Render(root, a).failed then Render(root, a)
            else Walk(Render(root, a).doc + Render(root, b).doc, Render(root, b).failed)
  {
    if a == [] {
      assert a + b == b;
    } else {
      assert (a + b)[0] == a[0];
      assert (a + b)[1..] == a[1..] + b;
      match a[0].kind
      case RegularFile(content) =>
        RenderConcat(root, a[1..], b);
        var r := Record(FullPath(root, a[0].names), content.GetOr(""));
        var wa, wb := Render(root, a[1..]), Render(root, b);
        if !wa.failed {
          assert r + (wa.doc + wb.doc) == (r + wa.doc) + wb.doc;
        }
      case Directory =>
        RenderConcat(root, a[1..], b);
      case BrokenDirectory =>
    }
  }

  lemma {:induction false} FullPathJoin(root: string, names: seq<string>)
    requires names != []
    ensures FullPath(root, names) == root + "/" + Join(names, "/")
  {
    if |names| > 1 {
      FullPathJoin(root, names[..|names| - 1]);
    }
  }

  /** The callback's relative path of an entry is the `/`-join of its names (`.` for the root). */
  lemma RelPathOfFullPath(root: string, names: seq<string>)
    ensures RelPath(root, FullPath(root, names)) == RelOf(names)
  {
    if names != [] {
      FullPathJoin(root, names);
      var path := FullPath(root, names);
      assert path[|root| + 1..] == Join(names, "/");
    }
  }

  /** Every entry of `n` is named by an extension of `names`. */
  lemma {:induction false} EntriesExtend(n: Node, names: seq<string>)
    ensures forall e | e in Entries(n, names) :: |e.names| >= |names| && e.names[..|names|] == names
    decreases n
  {
    match n {
      case Dir(_, kids) => EntriesAllExtend(kids, names);
      case _ =>
    }
  }

  lemma {:induction false} EntriesAllExtend(kids: seq<Node>, names: seq<string>)
    ensures forall e | e in EntriesAll(kids, names) :: |e.names| > |names| && e.names[..|names|] == names
    decreases kids
  {
    if kids != [] {
      var last := kids[|kids| - 1];
      var ext := names + [last.name];
      EntriesAllExtend(kids[..|kids| - 1], names);
      EntriesExtend(last, ext);
      forall e | e in Entries(last, ext) ensures e.names[..|names|] == names {
        assert e.names[..|names|] == e.names[..|ext|][..|names|];
      }
    }
  }

  /** The walk of `n` at its full path is the rendering of its visible entries,
      provided the directories above it passed the ignore check. */
  lemma {:induction false} CollectIsRender(root: string, ignored: string -> bool, n: Node, names: seq<string>)
    requires forall k | 1 <= k < |names| :: !Pruned(ignored, names[..k])
    ensures Collect(root, ignored, n, FullPath(root, names)) == Render(root, VisibleEntries(ignored, Entries(n, names)))
    decreases n
  {
    var path := FullPath(root, names);
    RelPathOfFullPath(root, names);
    assert Skipped(root, ignored, path) == Pruned(ignored, names);
    var es := Entries(n, names);
    var head := Entry(names, KindOf(n));
    if Pruned(ignored, names) {
      EntriesExtend(n, names);
      assert names[..|names|] == names;
      forall e | e in es ensures !Visible(ignored, e) {
        assert e.names[..|names|] == names;
      }
      VisibleNone(ignored, es);
    } else {
      assert Visible(ignored, head) by {
        forall k | 1 <= k <= |names| ensures !Pruned(ignored, names[..k]) {
          if k == |names| {
            assert names[..k] == names;
          }
        }
      }
      match n {
        case File(_, content) =>
          assert es == [head];
          assert VisibleEntries(ignored, es) == [head];
        case Unlistable(_) =>
          assert es == [head];
          assert VisibleEntries(ignored, es) == [head];
        case Dir(_, kids) =>
          assert es == [head] + EntriesAll(kids, names);
          VisibleEntriesConcat(ignored, [head], EntriesAll(kids, names));
          assert VisibleEntries(ignored, [head]) == [head];
          CollectAllIsRender(root, ignored, kids, names);
      }
    }
  }

  lemma {:induction false} CollectAllIsRender(root: string, ignored: string -> bool, kids: seq<Node>, names: seq<string>)
    requires forall k | 1 <= k <= |names| :: !Pruned(ignored, names[..k])
    ensures CollectAll(root, ignored, kids, FullPath(root, names)) == Render(root, VisibleEntries(ignored, EntriesAll(kids, names)))
    decreases kids
  {
    if kids != [] {
      var init := kids[..|kids| - 1];
      var last := kids[|kids| - 1];
      var ext := names + [last.name];
      assert ext[..|ext| - 1] == names;
      assert FullPath(root, ext) == FullPath(root, names) + "/" + last.name;
      forall k | 1 <= k < |ext| ensures !Pruned(ignored, ext[..k]) {
        assert ext[..k] == names[..k];
      }
      CollectAllIsRender(root, ignored, init, names);
      CollectIsRender(root, ignored, last, ext);
      VisibleEntriesConcat(ignored, EntriesAll(init, names), Entries(last, ext));
      RenderConcat(root, VisibleEntries(ignored, EntriesAll(init, names)), VisibleEntries(ignored, Entries(last, ext)));
    }
  }

  lemma {:induction false} VisibleNone(ignored: string -> bool, es: seq<Entry>)
    requires forall e | e in es :: !Visible(ignored, e)
    ensures VisibleEntries(ignored, es) == []
  {
    if es != [] {
      VisibleNone(ignored, es[1..]);
    }
  }

  /** The document is the rendering of the visible entries of the tree in pre-order:
      one record per collected file, nothing from beneath a pruned directory, and
      nothing after the first directory whose listing fails. */
  lemma DocumentIsVisibleFiles(root: string, tree: Node, rulesFile: RulesFile)
    ensures Document(root, tree, rulesFile) == Render(root, VisibleEntries(IgnoredBy(RulesOf(rulesFile)), Entries(tree, []))).doc
  {
    CollectIsRender(root, IgnoredBy(RulesOf(rulesFile)), tree, []);
  }

  lemma {:induction false} VisibleAll(ignored: string -> bool, es: seq<Entry>)
    requires forall e | e in es :: Visible(ignored, e)
    ensures VisibleEntries(ignored, es) == es
  {
    if es != [] {
      VisibleAll(ignored, es[1..]);
    }
  }

  /** Without a readable `.gitignore` nothing is pruned, not even `.git`: every
      file of the tree is collected, in pre-order, up to the first broken directory. */
  lemma UnreadableRulesFilePrunesNothing(root: string, tree: Node)
    ensures Document(root, tree, Unopenable) == Render(root, Entries(tree, [])).doc
  {
    var ignored := IgnoredBy(RulesOf(Unopenable));
    forall e | e in Entries(tree, []) ensures Visible(ignored, e) {
      forall k | 1 <= k <= |e.names| ensures !Pruned(ignored, e.names[..k]) {
        NothingIgnoredWithoutRules(RelOf(e.names[..k]));
      }
    }
    VisibleAll(ignored, Entries(tree, []));
    DocumentIsVisibleFiles(root, tree, Unopenable);
  }

  /** With a readable `.gitignore`, no collected entry lies at or beneath a path
      whose relative form contains `.git`. */
  lemma NothingCollectedUnderGit(rulesFile: RulesFile, es: seq<Entry>, e: Entry, k: nat)
    requires rulesFile.Opened?
    requires e in VisibleEntries(IgnoredBy(RulesOf(rulesFile)), es)
    requires 1 <= k <= |e.names|
    ensures !Contains(RelOf(e.names[..k]), Seed)
  {
    var rel := RelOf(e.names[..k]);
    assert !Pruned(IgnoredBy(RulesOf(rulesFile)), e.names[..k]);
    if Contains(rel, Seed) {
      SeedIgnoresGitNames(rulesFile, rel);
    }
  }

  /** A broken directory ends the document: what follows it is never rendered, and the
      walk reports a failure unless an earlier broken directory already did. */
  lemma RenderStopsAtBroken(root: string, es: seq<Entry>, j: nat)
    requires j < |es| && es[j].kind.BrokenDirectory?
    ensures Render(root, es) == if Render(root, es[..j]).failed then Render(root, es[..j])
                                else Walk(Render(root, es[..j]).doc, true)
  {
    assert es == es[..j] + es[j..];
    RenderConcat(root, es[..j], es[j..]);
    assert es[j..][0] == es[j];
  }

  /** A small scan: the root `r` holds `.git/config`, `a.txt` and `build/out.bin`, and the
      `.gitignore` holds the single line `build`. Only `a.txt` is collected. */
  lemma SmallScan()
    ensures Document("r", SmallTree(), Opened(["build"], false)) == Record("r/a.txt", "hello")
  {
    var rules := RulesOf(Opened(["build"], false));
    assert 'b' !in WhiteSpace && 'd' !in WhiteSpace;
    TrimKeepsUncut("build", WhiteSpace);
    TrimKeepsUncut("build", {'/'});
    assert Normalize("build") == "build";
    assert rules == [".git", "build"];
    SmallScanChecks(rules, ".git", "build", "a.txt");
    var ig := IgnoredBy(rules);
    assert ig(".git") && ig("build") && !ig("a.txt");
    SmallScanWalk(ig);
  }

  function SmallTree(): Node {
    Dir("r", [Dir(".git", [File("config", Some("x"))]),
              File("a.txt", Some("hello")),
              Dir("build", [File("out.bin", Some("y"))])])
  }

  /** The walk of the small scan under any ignore check that drops `.git` and `build` and keeps `a.txt`. */
  lemma SmallScanWalk(ig: string -> bool)
    requires ig(".git") && ig("build") && !ig("a.txt")
    ensures Collect("r", ig, SmallTree(), "r").doc == Record("r/a.txt", "hello")
  {
    var g := Dir(".git", [File("config", Some("x"))]);
    var a := File("a.txt", Some("hello"));
    var b := Dir("build", [File("out.bin", Some("y"))]);
    assert "r" + "/" + ".git" == "r/.git" && RelPath("r", "r/.git") == ".git";
    assert "r" + "/" + "a.txt" == "r/a.txt" && RelPath("r", "r/a.txt") == "a.txt";
    assert "r" + "/" + "build" == "r/build" && RelPath("r", "r/build") == "build";
    assert Collect("r", ig, g, "r/.git") == Walk("", false);
    assert Collect("r", ig, a, "r/a.txt") == Walk(Record("r/a.txt", "hello"), false);
    assert Collect("r", ig, b, "r/build") == Walk("", false);
    var kids := [g, a, b];
    assert kids[..2][..1] == [g] && [g][..0] == [];
    assert CollectAll("r", ig, [g], "r") == Walk("", false);
    assert CollectAll("r", ig, kids[..2], "r") == Walk(Record("r/a.txt", "hello"), false);
    assert CollectAll("r", ig, kids, "r") == Walk(Record("r/a.txt", "hello"), false);
  }

  /** The ignore checks of the small scan, with the names passed in rather than written out. */
  lemma SmallScanChecks(rules: seq<string>, git: string, build: string, text: string)
    requires git == ".git" && build == "build" && text == "a.txt" && rules == [git, build]
    ensures Ignored(git, rules) && Ignored(build, rules) && !Ignored(text, rules)
  {
    ContainsSelf(git);
    ContainsSelf(build);
    assert Hits(rules[0], git);
    assert Hits(rules[1], build);
    SmallScanKeepsText(git, build, text);
    assert !Hits(rules[0], text) && !Hits(rules[1], text);
  }

  /** Neither rule of the small scan hits `a.txt`. */
  lemma SmallScanKeepsText(git: string, build: string, text: string)
    requires git == ".git" && build == "build" && text == "a.txt"
    ensures !Hits(git, text) && !Hits(build, text)
  {
    LiteralRuleIsSubstringTest(git, text);
    LiteralRuleIsSubstringTest(build, text);
    assert !Contains(text, git) by {
      forall i | 0 <= i <= |text| ensures !OccursAt(text, git, i) {
        if i <= 1 {
          assert text[i + 1] != git[1];
        }
      }
    }
    assert !Contains(text, build) by {
      forall i | 0 <= i <= |text| ensures !OccursAt(text, build, i) {
        assert text[0] != build[0];
      }
    }
  }

}
