/**
 * The parts of Go's `strings` package the ignore rules rely on, on Dafny strings
 * (one `char` per Unicode code point).
 */
module Strings {

  /** The code points for which Go's `unicode.IsSpace` holds; `strings.TrimSpace` cuts exactly these. */
  const WhiteSpace: set<char> := {
    '\t', '\n', '\U{000B}', '\U{000C}', '\r', ' ', '\U{0085}', '\U{00A0}', '\U{1680}',
    '\U{2000}', '\U{2001}', '\U{2002}', '\U{2003}', '\U{2004}', '\U{2005}', '\U{2006}',
    '\U{2007}', '\U{2008}', '\U{2009}', '\U{200A}', '\U{2028}', '\U{2029}', '\U{202F}',
    '\U{205F}', '\U{3000}'
  }

  /** Drops every leading character that is in `cut`. */
  function TrimLeft(s: string, cut: set<char>): string {
    if s != [] && s[0] in cut then TrimLeft(s[1..], cut) else s
  }

  /** Drops every trailing character that is in `cut`. */
  function TrimRight(s: string, cut: set<char>): string {
    if s != [] && s[|s| - 1] in cut then TrimRight(s[..|s| - 1], cut) else s
  }

  /** `strings.Trim(s, cutset)`: cut characters removed from both ends. */
  function Trim(s: string, cut: set<char>): string {
    TrimRight(TrimLeft(s, cut), cut)
  }

  /** `TrimLeft` leaves a suffix that does not start with a cut character, and
      everything it dropped is a cut character. */
  lemma {:induction false} TrimLeftSuffix(s: string, cut: set<char>)
    ensures var r := TrimLeft(s, cut);
            && |r| <= |s| && r == s[|s| - |r|..]
            && (forall i | 0 <= i < |s| - |r| :: s[i] in cut)
            && (r == [] || r[0] !in cut)
  {
    if s != [] && s[0] in cut {
      TrimLeftSuffix(s[1..], cut);
    }
  }

  /** `TrimRight` leaves a prefix that does not end with a cut character, and
      everything it dropped is a cut character. */
  lemma {:induction false} TrimRightPrefix(s: string, cut: set<char>)
    ensures var r := TrimRight(s, cut);
            && |r| <= |s| && r == s[..|r|]
            && (forall i | |r| <= i < |s| :: s[i] in cut)
            && (r == [] || r[|r| - 1] !in cut)
  {
    if s != [] && s[|s| - 1] in cut {
      TrimRightPrefix(s[..|s| - 1], cut);
    }
  }

  /** What `Trim` leaves is a piece of `s` that neither starts nor ends with a cut
      character, and everything around that piece is cut characters. */
  lemma TrimKeepsInfix(s: string, cut: set<char>)
    ensures var r := Trim(s, cut);
            && (r == [] || (r[0] !in cut && r[|r| - 1] !in cut))
            && exists k | 0 <= k <= |s| ::
                 && OccursAt(s, r, k)
                 && (forall i | 0 <= i < k :: s[i] in cut)
                 && (forall i | k + |r| <= i < |s| :: s[i] in cut)
  {
    var t := TrimLeft(s, cut);
    var r := TrimRight(t, cut);
    TrimLeftSuffix(s, cut);
    TrimRightPrefix(t, cut);
    var k := |s| - |t|;
    assert r == s[k..k + |r|];
    assert OccursAt(s, r, k);
    assert forall i | k + |r| <= i < |s| :: s[i] in cut by {
      forall i | k + |r| <= i < |s| ensures s[i] in cut {
        assert s[i] == t[i - k];
      }
    }
  }

  /** `strings.TrimSpace`. */
  function TrimSpace(s: string): string {
    Trim(s, WhiteSpace)
  }

  /** `Trim` leaves alone a string that neither starts nor ends with a cut character. */
  lemma TrimKeepsUncut(s: string, cut: set<char>)
    requires s != [] && s[0] !in cut && s[|s| - 1] !in cut
    ensures Trim(s, cut) == s
  {
  }

  /** `strings.HasPrefix`. */
  predicate HasPrefix(s: string, prefix: string) {
    prefix <= s
  }

  /** `strings.Contains`: `sub` occurs somewhere in `s` as a contiguous piece. */
  predicate Contains(s: string, sub: string) {
    exists i | 0 <= i <= |s| :: OccursAt(s, sub, i)
  }

  /** `sub` occurs in `s` starting at index `i`. */
  predicate OccursAt(s: string, sub: string, i: nat) {
    i + |sub| <= |s| && s[i..i + |sub|] == sub
  }

  /** `strings.Join`: the parts with `sep` between consecutive ones. */
  function Join(parts: seq<string>, sep: string): string {
    if |parts| == 0 then ""
    else if |parts| == 1 then parts[0]
    else Join(parts[..|parts| - 1], sep) + sep + parts[|parts| - 1]
  }

  /** Joining with no separator takes the first part and then the join of the others. */
  lemma {:induction false} JoinNoSeparatorFront(parts: seq<string>)
    requires parts != []
    ensures Join(parts, "") == parts[0] + Join(parts[1..], "")
  {
    var n := |parts|;
    if n == 2 {
      assert parts[..1] == [parts[0]] && parts[1..] == [parts[1]];
    } else if n > 2 {
      var init := parts[..n - 1];
      JoinNoSeparatorFront(init);
      assert init[1..] == parts[1..][..n - 2];
      assert parts[1..][n - 2] == parts[n - 1];
    }
  }

  /** Every string contains the empty string. */
  lemma ContainsEmpty(s: string)
    ensures Contains(s, "")
  {
    assert OccursAt(s, "", 0);
  }

  /** Every string contains itself. */
  lemma ContainsSelf(s: string)
    ensures Contains(s, s)
  {
    assert OccursAt(s, s, 0);
  }
}
