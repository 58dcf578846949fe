/**
 * Shell-style patterns as Go's `filepath.Match` reads them on a system whose
 * separator is '/': `*` matches any run of non-separator characters, `?` any one
 * non-separator character, `[...]` / `[^...]` a character class of single
 * characters and `lo-hi` ranges, and `\` makes the next character literal. A
 * malformed pattern makes `Match` report `ErrBadPattern`, modelled as `None`.
 *
 * `Matches` is the plain reading of a pattern, which tries every way of sharing
 * the name among the stars. `Match` follows `filepath.Match`'s own procedure,
 * which commits to the leftmost place where each star-free chunk fits; it is
 * proved to answer true only where `Matches` does, and shown to answer false on
 * a name `Matches` accepts.
 */
module Glob {
  import opened Wrappers

  const Separator: char := '/'

  datatype Range = Range(lo: char, hi: char)

  datatype Token =
    | Literal(c: char)
    | AnyChar
    | Star
    | Class(negated: bool, ranges: seq<Range>)

  /** One character inside a class, possibly escaped. It may not be an unescaped
      `-` or `]`, and the class must go on after it. */
  function ClassChar(p: string): (r: Option<(char, string)>)
    ensures r.Some? ==> r.value.1 != [] && |r.value.1| < |p|
  {
    if p == [] || p[0] == '-' || p[0] == ']' then None
    else if p[0] == '\\' then
      if |p| <= 2 then None else Some((p[1], p[2..]))
    else if |p| == 1 then None
    else Some((p[0], p[1..]))
  }

  /** The ranges of a class up to and including its closing `]`; a class holds at least one range. */
  function ClassRanges(p: string, acc: seq<Range>): (r: Option<(seq<Range>, string)>)
    ensures r.Some? ==> |r.value.1| < |p| && r.value.0 != []
    decreases |p|
  {
    if p != [] && p[0] == ']' && acc != [] then Some((acc, p[1..]))
    else
      match ClassChar(p)
      case None => None
      case Some((lo, rest)) =>
        if rest[0] == '-' then
          match ClassChar(rest[1..])
          case None => None
          case Some((hi, rest')) => ClassRanges(rest', acc + [Range(lo, hi)])
        else ClassRanges(rest, acc + [Range(lo, lo)])
  }

  /** The next token of a pattern and the rest of the pattern. */
  function NextToken(p: string): (r: Option<(Token, string)>)
    requires p != []
    ensures r.Some? ==> |r.value.1| < |p|
  {
    match p[0]
    case '*' => Some((Star, p[1..]))
    case '?' => Some((AnyChar, p[1..]))
    case '\\' => if |p| == 1 then None else Some((Literal(p[1]), p[2..]))
    case '[' =>
      var negated := |p| > 1 && p[1] == '^';
      var body := if negated then p[2..] else p[1..];
      (match ClassRanges(body, [])
       case None => None
       case Some((ranges, rest)) => Some((Class(negated, ranges), rest)))
    case _ => Some((Literal(p[0]), p[1..]))
  }

  /** The tokens of a well-formed pattern; `None` for a malformed one. */
  function Compile(p: string): Option<seq<Token>>
    decreases |p|
  {
    if p == [] then Some([])
    else
      match NextToken(p)
      case None => None
      case Some((t, rest)) =>
        match Compile(rest)
        case None => None
        case Some(ts) => Some([t] + ts)
  }

  predicate InRanges(ranges: seq<Range>, c: char) {
    exists i | 0 <= i < |ranges| :: ranges[i].lo <= c <= ranges[i].hi
  }

  /** Whether the one-character token `t` accepts `c`; a star is not one. */
  predicate Accepts(t: Token, c: char) {
    match t
    case Literal(l) => c == l
    case AnyChar => c != Separator
    case Class(negated, ranges) => InRanges(ranges, c) != negated
    case Star => false
  }

  /** The plain reading: the whole of `s` matches the token sequence for some share of
      `s` among the stars. */
  predicate Matches(ts: seq<Token>, s: string)
    decreases |ts| + |s|
  {
    if ts == [] then s == []
    else if ts[0].Star? then
      Matches(ts[1..], s) || (s != [] && s[0] != Separator && Matches(ts, s[1..]))
    else
      s != [] && Accepts(ts[0], s[0]) && Matches(ts[1..], s[1..])
  }

  // ---------------------------------------------------------------------------
  // The procedure of `filepath.Match`: cut the pattern into chunks (a run of stars
  // and the star-free tokens after it), match each chunk where it first fits and
  // keep that choice.

  /** The number of stars at the front of `ts`. */
  function LeadingStars(ts: seq<Token>): (n: nat)
    ensures n <= |ts| && (forall j | 0 <= j < n :: ts[j].Star?) && (n < |ts| ==> !ts[n].Star?)
    ensures n > 0 <==> ts != [] && ts[0].Star?
  {
    if ts != [] && ts[0].Star? then 1 + LeadingStars(ts[1..]) else 0
  }

  /** The length of the star-free run at the front of `ts`. */
  function ChunkLength(ts: seq<Token>): (m: nat)
    ensures m <= |ts| && (forall j | 0 <= j < m :: !ts[j].Star?) && (m < |ts| ==> ts[m].Star?)
    ensures m > 0 <==> ts != [] && !ts[0].Star?
  {
    if ts != [] && !ts[0].Star? then 1 + ChunkLength(ts[1..]) else 0
  }

  /** `matchChunk`: the star-free `chunk` takes one character of `s` per token; the rest
      of `s` when every token accepts its character. */
  function MatchChunk(chunk: seq<Token>, s: string): (r: Option<string>)
    ensures r.Some? ==> |chunk| <= |s| && r.value == s[|chunk|..]
  {
    if chunk == [] then Some(s)
    else if s == [] || !Accepts(chunk[0], s[0]) then None
    else MatchChunk(chunk[1..], s[1..])
  }

  /** The loop of `filepath.Match` over the tokens `ts` still to match and the part
      `name` of the name still to consume. A star with nothing after it takes the rest
      of the name unless it holds a separator. Otherwise the chunk is tried where the
      name now starts (the last chunk must use up the name), and, after stars, at each
      later start the stars can reach without crossing a separator. */
  function Scan(ts: seq<Token>, name: string): bool
    decreases |ts|, 0
  {
    if ts == [] then name == []
    else
      var n := LeadingStars(ts);
      var after := ts[n..];
      var m := ChunkLength(after);
      var chunk, rest := after[..m], after[m..];
      if n > 0 && chunk == [] then Separator !in name
      else
        var here := MatchChunk(chunk, name);
        if here.Some? && (here.value == [] || rest != []) then Scan(rest, here.value)
        else n > 0 && Skip(chunk, rest, name, 0)
  }

  /** The search after stars: the stars take `name[..i + 1]`, and the chunk is tried on
      what follows; the first start that fits is kept. */
  function Skip(chunk: seq<Token>, rest: seq<Token>, name: string, i: nat): bool
    requires chunk != [] && i <= |name|
    decreases |chunk| + |rest|, |name| - i
  {
    if i == |name| || name[i] == Separator then false
    else
      var t := MatchChunk(chunk, name[i + 1..]);
      if t.Some? && (t.value == [] || rest != []) then Scan(rest, t.value)
      else Skip(chunk, rest, name, i + 1)
  }

  /** `filepath.Match(pattern, name)`: `Some(matched)` for a well-formed pattern,
      `None` (Go: `false, ErrBadPattern`) for a malformed one. A match it reports is a
      match in the plain reading. */
  function Match(pattern: string, name: string): (r: Option<bool>)
    ensures r.None? <==> Compile(pattern).None?
    ensures r == Some(true) ==> Matches(Compile(pattern).value, name)
  {
    match Compile(pattern)
    case None => None
    case Some(ts) =>
      ScanSound(ts, name);
      Some(Scan(ts, name))
  }

  // ---------------------------------------------------------------------------
  // What `Scan` answers true is a match of the plain reading.

  /** A chunk that fits, followed by tokens matching the rest. */
  lemma {:induction false} MatchChunkSound(chunk: seq<Token>, rest: seq<Token>, s: string)
    requires forall j | 0 <= j < |chunk| :: !chunk[j].Star?
    requires MatchChunk(chunk, s).Some? && Matches(rest, MatchChunk(chunk, s).value)
    ensures Matches(chunk + rest, s)
  {
    if chunk != [] {
      assert (chunk + rest)[1..] == chunk[1..] + rest;
      MatchChunkSound(chunk[1..], rest, s[1..]);
    } else {
      assert chunk + rest == rest;
    }
  }

  /** Leading stars may all take nothing. */
  lemma {:induction false} StarsTakeNothing(ts: seq<Token>, n: nat, s: string)
    requires n <= |ts| && forall j | 0 <= j < n :: ts[j].Star?
    requires Matches(ts[n..], s)
    ensures Matches(ts, s)
  {
    if n > 0 {
      assert ts[1..][n - 1..] == ts[n..];
      StarsTakeNothing(ts[1..], n - 1, s);
    }
  }

  /** A leading star may take any separator-free `w` in front of what the pattern matches. */
  lemma {:induction false} StarTakes(ts: seq<Token>, w: string, t: string)
    requires ts != [] && ts[0].Star? && Separator !in w
    requires Matches(ts, t)
    ensures Matches(ts, w + t)
    decreases |w|
  {
    if w != [] {
      assert (w + t)[1..] == w[1..] + t;
      StarTakes(ts, w[1..], t);
    } else {
      assert w + t == t;
    }
  }

  lemma {:induction false} ScanSound(ts: seq<Token>, name: string)
    ensures Scan(ts, name) ==> Matches(ts, name)
    decreases |ts|, 0
  {
    if ts != [] && Scan(ts, name) {
      var n := LeadingStars(ts);
      var after := ts[n..];
      var m := ChunkLength(after);
      var chunk, rest := after[..m], after[m..];
      if n > 0 && chunk == [] {
        TrailingStarsSound(ts, n, name);
      } else {
        var here := MatchChunk(chunk, name);
        if here.Some? && (here.value == [] || rest != []) {
          ScanSound(rest, here.value);
          ChunkHereSound(ts, n, m, name);
        } else {
          SkipSound(chunk, rest, name, 0);
          ChunkLaterSound(ts, n, m, name);
        }
      }
    }
  }

  /** Nothing but stars: they match any separator-free name. */
  lemma TrailingStarsSound(ts: seq<Token>, n: nat, name: string)
    requires 0 < n <= |ts| && (forall j | 0 <= j < n :: ts[j].Star?) && (n < |ts| ==> !ts[n].Star?)
    requires ChunkLength(ts[n..]) == 0 && Separator !in name
    ensures Matches(ts, name)
  {
    assert ts[n - 1..] == [Star];
    assert Matches([Star], []);
    StarTakes([Star], name, []);
    assert name + [] == name;
    StarsTakeNothing(ts, n - 1, name);
  }

  /** The chunk after the stars fits where the name starts. */
  lemma ChunkHereSound(ts: seq<Token>, n: nat, m: nat, name: string)
    requires n <= |ts| && (forall j | 0 <= j < n :: ts[j].Star?)
    requires m <= |ts| - n && forall j | 0 <= j < m :: !ts[n..][j].Star?
    requires MatchChunk(ts[n..][..m], name).Some?
    requires Matches(ts[n..][m..], MatchChunk(ts[n..][..m], name).value)
    ensures Matches(ts, name)
  {
    var after := ts[n..];
    MatchChunkSound(after[..m], after[m..], name);
    assert after[..m] + after[m..] == after;
    StarsTakeNothing(ts, n, name);
  }

  /** The chunk after the stars fits after the stars took part of the name. */
  lemma ChunkLaterSound(ts: seq<Token>, n: nat, m: nat, name: string)
    requires 0 < n <= |ts| && (forall j | 0 <= j < n :: ts[j].Star?) && m <= |ts| - n
    requires Matches([Star] + ts[n..][..m] + ts[n..][m..], name)
    ensures Matches(ts, name)
  {
    var after := ts[n..];
    assert [Star] + after[..m] + after[m..] == ts[n - 1..];
    StarsTakeNothing(ts, n - 1, name);
  }

  lemma {:induction false} SkipSound(chunk: seq<Token>, rest: seq<Token>, name: string, i: nat)
    requires chunk != [] && i <= |name| && Separator !in name[..i]
    requires forall j | 0 <= j < |chunk| :: !chunk[j].Star?
    ensures Skip(chunk, rest, name, i) ==> Matches([Star] + chunk + rest, name)
    decreases |chunk| + |rest|, |name| - i
  {
    if Skip(chunk, rest, name, i) {
      var w := name[..i + 1];
      var t := MatchChunk(chunk, name[i + 1..]);
      if t.Some? && (t.value == [] || rest != []) {
        ScanSound(rest, t.value);
        MatchChunkSound(chunk, rest, name[i + 1..]);
        var ts := [Star] + chunk + rest;
        assert ts[1..] == chunk + rest;
        assert Matches(ts, name[i + 1..]);
        StarTakes(ts, w, name[i + 1..]);
        assert w + name[i + 1..] == name;
      } else {
        assert name[..i + 1] == name[..i] + [name[i]];
        SkipSound(chunk, rest, name, i + 1);
      }
    }
  }

  // ---------------------------------------------------------------------------
  // Patterns of plain characters, and the lone star.

  /** A pattern without any of the characters `*`, `?`, `[` and `\`. */
  predicate IsLiteral(p: string) {
    forall i | 0 <= i < |p| :: p[i] !in {'*', '?', '[', '\\'}
  }

  function Literals(p: string): (ts: seq<Token>)
    ensures |ts| == |p| && forall j | 0 <= j < |p| :: ts[j] == Literal(p[j])
  {
    if p == [] then [] else [Literal(p[0])] + Literals(p[1..])
  }

  lemma {:induction false} CompileLiteral(p: string)
    requires IsLiteral(p)
    ensures Compile(p) == Some(Literals(p))
  {
    if p != [] {
      CompileLiteral(p[1..]);
    }
  }

  /** Plain characters fit exactly at the front of a name they are a prefix of. */
  lemma {:induction false} MatchChunkLiterals(p: string, s: string)
    ensures MatchChunk(Literals(p), s) == if p <= s then Some(s[|p|..]) else None
  {
    if p != [] && s != [] {
      assert Literals(p)[1..] == Literals(p[1..]);
      MatchChunkLiterals(p[1..], s[1..]);
      assert p <= s <==> p[0] == s[0] && p[1..] <= s[1..];
    }
  }

  /** A pattern with no special characters matches exactly the name equal to it. */
  lemma LiteralMatch(p: string, s: string)
    requires IsLiteral(p)
    ensures Match(p, s) == Some(p == s)
  {
    CompileLiteral(p);
    var ts := Literals(p);
    if p != [] {
      assert LeadingStars(ts) == 0;
      assert ChunkLength(ts) == |ts|;
      assert ts[0..] == ts && ts[..|ts|] == ts && ts[|ts|..] == [];
      MatchChunkLiterals(p, s);
      if p <= s {
        assert MatchChunk(ts, s) == Some(s[|p|..]);
        assert s[|p|..] == [] <==> p == s;
        assert Scan(ts, s) == (s[|p|..] == []);
      } else {
        assert MatchChunk(ts, s) == None;
        assert !Scan(ts, s);
      }
    }
  }

  lemma {:induction false} MatchesStar(s: string)
    ensures Matches([Star], s) <==> Separator !in s
  {
    assert [Star][1..] == [];
    if s != [] {
      MatchesStar(s[1..]);
      assert s == [s[0]] + s[1..];
    }
  }

  /** `*` alone matches a name exactly when the name has no separator: a star never
      crosses into another path segment. */
  lemma StarStaysInSegment(s: string)
    ensures Match("*", s) == Some(Separator !in s)
  {
    var star := "*";
    assert star[1..] == "";
    assert NextToken(star) == Some((Star, ""));
    assert Compile("") == Some([]);
    assert [Star] + [] == [Star];
    assert Compile(star) == Some([Star]);
    assert LeadingStars([Star]) == 1;
    assert [Star][1..] == [];
  }

  /** The plain reading and `filepath.Match` part ways: in `*[^x]*c` against `a/c` the
      first star can take `a` and the class `/`, so the plain reading matches; the
      procedure fits the class at `a`, keeps that, and then the second star cannot
      cross the separator. */
  lemma LeftmostCommitMissesMatch()
    ensures Compile("*[^x]*c") == Some([Star, Class(true, [Range('x', 'x')]), Star, Literal('c')])
    ensures Matches([Star, Class(true, [Range('x', 'x')]), Star, Literal('c')], "a/c")
    ensures Match("*[^x]*c", "a/c") == Some(false)
  {
    var cls := Class(true, [Range('x', 'x')]);
    var ts := [Star, cls, Star, Literal('c')];
    CompileSample();
    assert Matches([Literal('c')], "c") by {
      assert [Literal('c')][1..] == [] && "c"[1..] == [];
    }
    assert Matches(ts[2..], "c") by {
      assert ts[2..][1..] == [Literal('c')];
    }
    assert Accepts(cls, '/') by {
      assert !InRanges([Range('x', 'x')], '/');
    }
    assert Matches(ts[1..], "/c") by {
      assert ts[1..][1..] == ts[2..] && "/c"[1..] == "c";
    }
    assert Matches(ts[1..], "/c");
    assert Matches(ts, "/c");
    assert Matches(ts, "a/c") by {
      assert "a/c"[1..] == "/c";
    }
    ScanSample();
  }

  lemma CompileSample()
    ensures Compile("*[^x]*c") == Some([Star, Class(true, [Range('x', 'x')]), Star, Literal('c')])
  {
    var p := "*[^x]*c";
    assert p[1..] == "[^x]*c";
    assert "[^x]*c"[2..] == "x]*c";
    assert ClassChar("x]*c") == Some(('x', "]*c"));
    assert [] + [Range('x', 'x')] == [Range('x', 'x')];
    assert ClassRanges("]*c", [Range('x', 'x')]) == Some(([Range('x', 'x')], "*c"));
    assert ClassRanges("x]*c", []) == Some(([Range('x', 'x')], "*c"));
    assert NextToken("[^x]*c") == Some((Class(true, [Range('x', 'x')]), "*c"));
    assert "*c"[1..] == "c" && "c"[1..] == "";
    assert NextToken("c") == Some((Literal('c'), ""));
    assert Compile("") == Some([]);
    assert [Literal('c')] + [] == [Literal('c')];
    assert Compile("c") == Some([Literal('c')]);
    assert NextToken("*c") == Some((Star, "c"));
    assert [Star] + [Literal('c')] == [Star, Literal('c')];
    assert Compile("*c") == Some([Star, Literal('c')]);
    var cls := Class(true, [Range('x', 'x')]);
    assert [cls] + [Star, Literal('c')] == [cls, Star, Literal('c')];
    assert Compile("[^x]*c") == Some([cls, Star, Literal('c')]);
    assert NextToken(p) == Some((Star, "[^x]*c"));
    assert [Star] + [cls, Star, Literal('c')] == [Star, cls, Star, Literal('c')];
  }

  lemma ScanSample()
    ensures Scan([Star, Class(true, [Range('x', 'x')]), Star, Literal('c')], "a/c") == false
  {
    var cls := Class(true, [Range('x', 'x')]);
    var ts := [Star, cls, Star, Literal('c')];
    var tail := [Star, Literal('c')];
    assert LeadingStars(tail) == 1 && ChunkLength(tail[1..]) == 1;
    assert tail[1..][..1] == [Literal('c')] && tail[1..][1..] == [];
    assert MatchChunk([Literal('c')], "/c") == None;
    assert Skip([Literal('c')], [], "/c", 0) == false;
    assert Scan(tail, "/c") == false;
    assert LeadingStars(ts) == 1 && ChunkLength(ts[1..]) == 1;
    assert ts[1..][..1] == [cls] && ts[1..][1..] == tail;
    assert Accepts(cls, 'a') by {
      assert !InRanges([Range('x', 'x')], 'a');
    }
    assert MatchChunk([cls], "a/c") == Some("/c");
  }

  /** A pattern that ends in an escape with nothing to escape is malformed, whatever
      well-formed pattern comes before it. */
  lemma {:induction false} TrailingEscapeIsMalformed(p: string)
    requires Compile(p).Some?
    ensures Compile(p + "\\") == None
    decreases |p|
  {
    if p == [] {
      assert NextToken("\\") == None;
      assert p + "\\" == "\\";
    } else {
      var t, r := NextToken(p).value.0, NextToken(p).value.1;
      NextTokenAppend(p, "\\");
      TrailingEscapeIsMalformed(r);
    }
  }

  /** Text after a complete token does not change how the token is read. */
  lemma NextTokenAppend(p: string, x: string)
    requires p != [] && NextToken(p).Some?
    ensures NextToken(p + x) == Some((NextToken(p).value.0, NextToken(p).value.1 + x))
  {
    var q := p + x;
    assert q[0] == p[0];
    assert q[1..] == p[1..] + x;
    if p[0] == '\\' {
      assert q[2..] == p[2..] + x;
    } else if p[0] == '[' {
      var negated := |p| > 1 && p[1] == '^';
      assert |q| > 1 && q[1] == '^' <==> negated;
      var body := if negated then p[2..] else p[1..];
      if negated {
        assert q[2..] == body + x;
      }
      ClassRangesAppend(body, [], x);
    }
  }

  lemma ClassCharAppend(p: string, x: string)
    requires ClassChar(p).Some?
    ensures ClassChar(p + x) == Some((ClassChar(p).value.0, ClassChar(p).value.1 + x))
  {
    var q := p + x;
    assert q[0] == p[0] && q[1..] == p[1..] + x;
    if p[0] == '\\' {
      assert q[1] == p[1] && q[2..] == p[2..] + x;
    }
  }

  lemma {:induction false} ClassRangesAppend(p: string, acc: seq<Range>, x: string)
    requires ClassRanges(p, acc).Some?
    ensures ClassRanges(p + x, acc) == Some((ClassRanges(p, acc).value.0, ClassRanges(p, acc).value.1 + x))
    decreases |p|
  {
    var q := p + x;
    if p != [] && p[0] == ']' && acc != [] {
      assert q[0] == p[0] && q[1..] == p[1..] + x;
    } else {
      assert p != [] ==> q[0] == p[0];
      ClassCharAppend(p, x);
      var lo, rest := ClassChar(p).value.0, ClassChar(p).value.1;
      assert (rest + x)[0] == rest[0];
      if rest[0] == '-' {
        assert (rest + x)[1..] == rest[1..] + x;
        ClassCharAppend(rest[1..], x);
        var hi, rest' := ClassChar(rest[1..]).value.0, ClassChar(rest[1..]).value.1;
        ClassRangesAppend(rest', acc + [Range(lo, hi)], x);
      } else {
        ClassRangesAppend(rest, acc + [Range(lo, lo)], x);
      }
    }
  }
}
