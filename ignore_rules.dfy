/**
 * The ignore rules of `lib/file-process.go`: `parseGitIgnore`, which turns the
 * lines of a `.gitignore` file into rule strings, and `isIgnored`, which tests a
 * relative path against them.
 */
module IgnoreRules {
  import opened Wrappers
  import opened Strings
  import Glob

  /** The rule every successfully opened rules file starts with. */
  const Seed: string := ".git"

  /** What reading the rules file yields: it cannot be opened, or it opens and the
      scanner delivers `lines` (up to a scanner error, when `scanFailed`). */
  datatype RulesFile =
    | Unopenable
    | Opened(lines: seq<string>, scanFailed: bool)

  /** A line that carries no rule: blank, or a `#` comment, once white space is trimmed. */
  predicate Dropped(line: string) {
    var t := TrimSpace(line);
    t == "" || HasPrefix(t, "#")
  }

  /** The rule a kept line stands for: white space trimmed, then every leading and trailing `/` removed. */
  function Normalize(line: string): string {
    Trim(TrimSpace(line), {'/'})
  }

  /** The rules the lines contribute, in file order. */
  function Kept(lines: seq<string>): seq<string> {
    if lines == [] then []
    else
      var last := lines[|lines| - 1];
      Kept(lines[..|lines| - 1]) + (if Dropped(last) then [] else [Normalize(last)])
  }

  /** The rule list `parseGitIgnore` returns: `nil` when the file cannot be opened,
      otherwise the seed followed by the rules of the lines scanned. */
  function RulesOf(f: RulesFile): seq<string> {
    match f
    case Unopenable => []
    case Opened(lines, _) => [Seed] + Kept(lines)
  }

  /** `parseGitIgnore`: the scan loop appends one rule per kept line; the error
      result is set when the file cannot be opened or the scanner fails. */
  method ParseGitIgnore(f: RulesFile) returns (rules: seq<string>, failed: bool)
    ensures rules == RulesOf(f)
    ensures failed <==> f.Unopenable? || f.scanFailed
  {
    rules := [Seed];
    if f.Unopenable? {
      return [], true;
    }
    var lines := f.lines;
    for i := 0 to |lines|
      invariant rules == [Seed] + Kept(lines[..i])
    {
      assert lines[..i + 1][..i] == lines[..i];
      var line := TrimSpace(lines[i]);
      if line == "" || HasPrefix(line, "#") {
        continue;
      }
      line := Trim(line, {'/'});
      rules := rules + [line];
    }
    assert lines[..|lines|] == lines;
    failed := f.scanFailed;
  }

  /** The indices of the lines that yield rules: strictly increasing line numbers. */
  function KeptIndices(lines: seq<string>): (r: seq<nat>)
    ensures forall j | 0 <= j < |r| :: r[j] < |lines|
    ensures forall j, k | 0 <= j < k < |r| :: r[j] < r[k]
  {
    if lines == [] then []
    else
      var n := |lines| - 1;
      KeptIndices(lines[..n]) + (if Dropped(lines[n]) then [] else [n])
  }

  /** Rule number `j` is the normalised form of line number `KeptIndices(lines)[j]`. */
  lemma {:induction false} KeptInFileOrder(lines: seq<string>)
    ensures |Kept(lines)| == |KeptIndices(lines)|
    ensures forall j | 0 <= j < |KeptIndices(lines)| :: Kept(lines)[j] == Normalize(lines[KeptIndices(lines)[j]])
  {
    if lines != [] {
      var n := |lines| - 1;
      var init := lines[..n];
      KeptInFileOrder(init);
      forall j | 0 <= j < |KeptIndices(init)|
        ensures Kept(lines)[j] == Normalize(lines[KeptIndices(lines)[j]])
      {
        assert init[KeptIndices(init)[j]] == lines[KeptIndices(init)[j]];
      }
    }
  }

  /** A line yields a rule exactly when it is not dropped. */
  lemma {:induction false} KeptExactlyUndropped(lines: seq<string>)
    ensures forall i | 0 <= i < |lines| :: i in KeptIndices(lines) <==> !Dropped(lines[i])
  {
    if lines != [] {
      var n := |lines| - 1;
      var init := lines[..n];
      KeptExactlyUndropped(init);
      assert forall i | 0 <= i < n :: init[i] == lines[i];
    }
  }

  /** An opened file yields the seed first and then one rule per kept line. */
  lemma OpenedRules(lines: seq<string>, scanFailed: bool)
    ensures var rules := RulesOf(Opened(lines, scanFailed));
            && |rules| == 1 + |KeptIndices(lines)|
            && rules[0] == Seed
            && forall j | 0 <= j < |KeptIndices(lines)| :: rules[j + 1] == Normalize(lines[KeptIndices(lines)[j]])
  {
    KeptInFileOrder(lines);
  }

  /** No rule begins or ends with `/`. */
  lemma {:induction false} KeptRulesHaveNoOuterSlash(lines: seq<string>)
    ensures forall r | r in Kept(lines) :: r == "" || (r[0] != '/' && r[|r| - 1] != '/')
  {
    if lines != [] {
      KeptRulesHaveNoOuterSlash(lines[..|lines| - 1]);
      TrimKeepsInfix(TrimSpace(lines[|lines| - 1]), {'/'});
    }
  }

  /** A line holding only slashes (and white space around them) is kept and yields the empty rule. */
  lemma SlashLineYieldsEmptyRule(line: string)
    requires TrimSpace(line) != []
    requires forall i | 0 <= i < |TrimSpace(line)| :: TrimSpace(line)[i] == '/'
    ensures !Dropped(line) && Normalize(line) == ""
    ensures Kept([line]) == [""]
  {
    TrimKeepsInfix(TrimSpace(line), {'/'});
    assert [line][..0] == [];
  }

  /** One rule applies to a name: its glob matches the name (a malformed glob
      counts as no match), or the name contains the rule as a substring. */
  predicate Hits(rule: string, name: string) {
    Glob.Match(rule, name).GetOr(false) || Contains(name, rule)
  }

  /** The meaning of `isIgnored(name, rules)`: some rule applies to the name. */
  predicate Ignored(name: string, rules: seq<string>) {
    exists i | 0 <= i < |rules| :: Hits(rules[i], name)
  }

  /** `Ignored` with the rules fixed, as the walk callback uses it. */
  function IgnoredBy(rules: seq<string>): string -> bool {
    name => Ignored(name, rules)
  }

  /** `isIgnored`: tries the rules in order and returns at the first that applies. */
  method IsIgnored(name: string, rules: seq<string>) returns (ignored: bool)
    ensures ignored <==> Ignored(name, rules)
  {
    for i := 0 to |rules|
      invariant forall j | 0 <= j < i :: !Hits(rules[j], name)
    {
      var matched := Glob.Match(rules[i], name).GetOr(false);
      if matched || Contains(name, rules[i]) {
        return true;
      }
    }
    return false;
  }

  /** With no rules nothing is ignored. */
  lemma NothingIgnoredWithoutRules(name: string)
    ensures !Ignored(name, [])
  {
  }

  /** Splitting the rule list: a name is ignored by `a + b` exactly when it is ignored by `a` or by `b`. */
  lemma IgnoredByConcat(name: string, a: seq<string>, b: seq<string>)
    ensures Ignored(name, a + b) <==> Ignored(name, a) || Ignored(name, b)
  {
    if Ignored(name, a + b) {
      var i :| 0 <= i < |a + b| && Hits((a + b)[i], name);
      if i >= |a| {
        assert Hits(b[i - |a|], name);
      }
    }
    if Ignored(name, a) {
      var i :| 0 <= i < |a| && Hits(a[i], name);
      assert (a + b)[i] == a[i];
    }
    if Ignored(name, b) {
      var i :| 0 <= i < |b| && Hits(b[i], name);
      assert (a + b)[|a| + i] == b[i];
    }
  }

  /** Adding rules never un-ignores a name: the result only depends on which rules occur. */
  lemma IgnoredMonotone(name: string, a: seq<string>, b: seq<string>)
    requires forall r | r in a :: r in b
    requires Ignored(name, a)
    ensures Ignored(name, b)
  {
    var i :| 0 <= i < |a| && Hits(a[i], name);
    assert a[i] in b;
    var j :| 0 <= j < |b| && b[j] == a[i];
  }

  /** The order and repetition of the rules does not matter. */
  lemma IgnoredIgnoresOrder(name: string, a: seq<string>, b: seq<string>)
    requires forall r :: r in a <==> r in b
    ensures Ignored(name, a) <==> Ignored(name, b)
  {
    if Ignored(name, a) {
      IgnoredMonotone(name, a, b);
    }
    if Ignored(name, b) {
      IgnoredMonotone(name, b, a);
    }
  }

  /** An empty rule applies to every name, since every name contains the empty string. */
  lemma EmptyRuleIgnoresEverything(name: string, rules: seq<string>)
    requires "" in rules
    ensures Ignored(name, rules)
  {
    ContainsEmpty(name);
    var i :| 0 <= i < |rules| && rules[i] == "";
    assert Hits(rules[i], name);
  }

  /** A malformed glob never matches, but the substring test still applies. */
  lemma MalformedRuleIsSubstringTest(rule: string, name: string)
    requires Glob.Match(rule, name) == None
    ensures Hits(rule, name) <==> Contains(name, rule)
  {
  }

  /** A rule without glob syntax applies exactly to the names that contain it:
      the glob test adds nothing to the substring test. */
  lemma LiteralRuleIsSubstringTest(rule: string, name: string)
    requires Glob.IsLiteral(rule)
    ensures Hits(rule, name) <==> Contains(name, rule)
  {
    Glob.LiteralMatch(rule, name);
    if rule == name {
      ContainsSelf(name);
    }
  }

  /** Whenever the rules file opens, every name that contains `.git` is ignored,
      so `.gitignore` and `.github` share the fate of `.git`. */
  lemma SeedIgnoresGitNames(f: RulesFile, name: string)
    requires f.Opened?
    requires Contains(name, Seed)
    ensures Ignored(name, RulesOf(f))
  {
    assert RulesOf(f)[0] == Seed;
    assert Hits(RulesOf(f)[0], name);
  }

  /** A rules file that cannot be opened yields no rules at all, not even the seed. */
  lemma UnopenableFileHasNoSeed(name: string)
    ensures RulesOf(Unopenable) == []
    ensures !Ignored(name, RulesOf(Unopenable))
  {
  }
}
