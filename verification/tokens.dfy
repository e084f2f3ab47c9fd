/** `fmt.split(/(%-?.)/)`, the first step of `When.prototype.format`
    (when.js:129).  Splitting with a capturing group returns the text
    between the matches at even positions and the matches themselves at
    odd positions, so the result always has an odd length.

    A match is `%`, an optional `-`, and one character that is not a line
    terminator (`.` of section 15.10.2.8 of ECMAScript 5.1 excludes
    exactly the four characters of section 7.3).  When `%-` is followed by
    a line terminator or by the end of the text, the regular expression
    backtracks and `-` itself is the `.`, so the match is `%-`.

    `Split` is the scanning algorithm of section 15.5.4.14; `WellSplit`
    describes the pieces independently of it.  `SplitIsWellSplit` and
    `SplitUnique` together say that `Split(s)` is the one and only
    well-formed decomposition of `s`. */
module Tokens {

  predicate IsLineTerminator(c: char)
  {
    c == '\n' || c == '\r' || c == '\U{2028}' || c == '\U{2029}'
  }

  /** The length of the match of `%-?.` starting at position `q` of `s`,
      or 0 when there is none there. */
  function MatchLength(s: string, q: nat): (n: nat)
    requires q <= |s|
    ensures n == 0 || n == 2 || n == 3
    ensures q + n <= |s|
  {
    if q + 1 < |s| && s[q] == '%' then
      if s[q + 1] == '-' && q + 2 < |s| && !IsLineTerminator(s[q + 2]) then 3
      else if IsLineTerminator(s[q + 1]) then 0
      else 2
    else 0
  }

  /** The first position at or after `q` where a match starts, or `|s|`. */
  function FirstMatch(s: string, q: nat): (r: nat)
    requires q <= |s|
    ensures q <= r <= |s|
    ensures forall k :: q <= k < r ==> MatchLength(s, k) == 0
    ensures r < |s| ==> MatchLength(s, r) > 0
    decreases |s| - q
  {
    if q == |s| then q
    else if MatchLength(s, q) > 0 then q
    else FirstMatch(s, q + 1)
  }

  /** The pieces of `s`: literal text and directives, alternating, with a
      literal (possibly empty) first and last. */
  function Split(s: string): (parts: seq<string>)
    ensures |parts| % 2 == 1
    decreases |s|
  {
    var q := FirstMatch(s, 0);
    if q == |s| then [s]
    else
      var n := MatchLength(s, q);
      [s[..q], s[q..q + n]] + Split(s[q + n..])
  }

  /** `parts.join('')`. */
  function Join(parts: seq<string>): string
    decreases |parts|
  {
    if parts == [] then "" else parts[0] + Join(parts[1..])
  }

  /** A text the regular expression matches as a whole. */
  predicate IsDirective(d: string)
  {
    || (|d| == 2 && d[0] == '%' && !IsLineTerminator(d[1]))
    || (|d| == 3 && d[0] == '%' && d[1] == '-' && !IsLineTerminator(d[2]))
  }

  /** Literal `lit` leaves no match behind: each `%` in it is followed by
      a line terminator, or it is the last character of the whole text. */
  predicate Inert(lit: string, last: bool)
  {
    forall k :: 0 <= k < |lit| && lit[k] == '%' ==>
      (k + 1 < |lit| && IsLineTerminator(lit[k + 1])) || (k + 1 == |lit| && last)
  }

  /** The directive `%-` only when the regular expression could not take
      a third character: the text ends after it or a line terminator
      follows. */
  predicate Greedy(d: string, next: string, last: bool)
  {
    d == "%-" ==> (next == [] && last) || (next != [] && IsLineTerminator(next[0]))
  }

  /** What splitting at the leftmost-longest matches must produce. */
  predicate WellSplit(parts: seq<string>)
  {
    && |parts| % 2 == 1
    && (forall i :: 0 <= i < |parts| && i % 2 == 1 ==> IsDirective(parts[i]))
    && (forall i :: 0 <= i < |parts| && i % 2 == 0 ==> Inert(parts[i], i == |parts| - 1))
    && (forall i :: 0 <= i < |parts| - 1 && i % 2 == 1 ==> Greedy(parts[i], parts[i + 1], i + 1 == |parts| - 1))
  }

  // ---------------------------------------------------------------------
  // Split is a decomposition
  // ---------------------------------------------------------------------

  /** Joining the pieces gives back the text. */
  lemma {:induction false} SplitJoins(s: string)
    ensures Join(Split(s)) == s
    decreases |s|
  {
    var q := FirstMatch(s, 0);
    if q < |s| {
      var n := MatchLength(s, q);
      SplitJoins(s[q + n..]);
      JoinTwo(s[..q], s[q..q + n], Split(s[q + n..]));
      assert s == s[..q] + s[q..q + n] + s[q + n..];
    } else {
      JoinTwo(s, [], []);
    }
  }

  lemma JoinTwo(a: string, b: string, r: seq<string>)
    ensures Join([a, b] + r) == a + b + Join(r)
    ensures Join([a]) == a
  {
    var p := [a, b] + r;
    assert p[1..] == [b] + r;
    assert p[1..][1..] == r;
    assert [a][1..] == [];
  }

  /** Matches are found the same way in a suffix. */
  lemma MatchInSuffix(s: string, m: nat, q: nat)
    requires m + q <= |s|
    ensures MatchLength(s[m..], q) == MatchLength(s, m + q)
  {
  }

  /** The literal before the first match is inert. */
  lemma LiteralInert(s: string)
    ensures Inert(s[..FirstMatch(s, 0)], FirstMatch(s, 0) == |s|)
  {
    var q := FirstMatch(s, 0);
    var lit := s[..q];
    forall k | 0 <= k < |lit| && lit[k] == '%'
      ensures (k + 1 < |lit| && IsLineTerminator(lit[k + 1])) || (k + 1 == |lit| && q == |s|)
    {
      assert MatchLength(s, k) == 0;
    }
  }

  /** The directive found at the first match obeys `Greedy` with respect
      to what follows it. */
  lemma FirstDirective(s: string)
    requires FirstMatch(s, 0) < |s|
    ensures IsDirective(s[FirstMatch(s, 0)..FirstMatch(s, 0) + MatchLength(s, FirstMatch(s, 0))])
    ensures var e := FirstMatch(s, 0) + MatchLength(s, FirstMatch(s, 0));
            Greedy(s[FirstMatch(s, 0)..e], Split(s[e..])[0], |Split(s[e..])| == 1)
  {
    var q := FirstMatch(s, 0);
    var e := q + MatchLength(s, q);
    var rest := s[e..];
    var next := Split(rest)[0];
    if s[q..e] == "%-" {
      var q' := FirstMatch(rest, 0);
      assert next == rest[..q'];
      if rest != [] {
        MatchInSuffix(s, e, 0);
      }
    }
  }

  /** The pieces `Split` produces are well formed. */
  lemma {:induction false} SplitIsWellSplit(s: string)
    ensures WellSplit(Split(s))
    decreases |s|
  {
    var q := FirstMatch(s, 0);
    LiteralInert(s);
    if q < |s| {
      var n := MatchLength(s, q);
      SplitIsWellSplit(s[q + n..]);
      FirstDirective(s);
      WellSplitCons(s[..q], s[q..q + n], Split(s[q + n..]));
    } else {
      assert Split(s) == [s];
    }
  }

  // ---------------------------------------------------------------------
  // A well-formed decomposition is the one Split finds
  // ---------------------------------------------------------------------

  /** The tail of a well-formed decomposition, after one literal and one
      directive, is well formed. */
  lemma WellSplitTail(parts: seq<string>)
    requires WellSplit(parts) && 3 <= |parts|
    ensures WellSplit(parts[2..])
  {
    var t := parts[2..];
    forall i | 0 <= i < |t| && i % 2 == 1
      ensures IsDirective(t[i])
    {
      assert t[i] == parts[i + 2];
    }
    forall i | 0 <= i < |t| && i % 2 == 0
      ensures Inert(t[i], i == |t| - 1)
    {
      assert t[i] == parts[i + 2];
    }
    forall i | 0 <= i < |t| - 1 && i % 2 == 1
      ensures Greedy(t[i], t[i + 1], i + 1 == |t| - 1)
    {
      assert t[i] == parts[i + 2] && t[i + 1] == parts[i + 3];
    }
  }

  /** A literal and a directive in front of a well-formed decomposition
      keep it well formed. */
  lemma WellSplitCons(lit: string, d: string, rest: seq<string>)
    requires WellSplit(rest) && Inert(lit, false) && IsDirective(d)
    requires Greedy(d, rest[0], |rest| == 1)
    ensures WellSplit([lit, d] + rest)
  {
    var p := [lit, d] + rest;
    forall i | 0 <= i < |p| && i % 2 == 1
      ensures IsDirective(p[i])
    {
      if i > 1 { assert p[i] == rest[i - 2]; }
    }
    forall i | 0 <= i < |p| && i % 2 == 0
      ensures Inert(p[i], i == |p| - 1)
    {
      if i > 0 { assert p[i] == rest[i - 2]; }
    }
    forall i | 0 <= i < |p| - 1 && i % 2 == 1
      ensures Greedy(p[i], p[i + 1], i + 1 == |p| - 1)
    {
      if i > 1 { assert p[i] == rest[i - 2] && p[i + 1] == rest[i - 1]; }
    }
  }

  /** An inert literal holds no match, so the first match after it is
      the one that starts where it ends. */
  lemma InertHasNoMatch(lit: string, rest: string, last: bool)
    requires Inert(lit, last)
    requires last ==> rest == []
    requires !last ==> MatchLength(lit + rest, |lit|) > 0
    ensures FirstMatch(lit + rest, 0) == |lit|
  {
    var s := lit + rest;
    var q := FirstMatch(s, 0);
    assert forall k :: 0 <= k < |lit| ==> s[k] == lit[k];
    assert q < |lit| ==> MatchLength(s, q) > 0 && lit[q] == '%' && q + 1 < |s|;
    assert q + 1 < |lit| ==> s[q + 1] == lit[q + 1];
    assert q < |lit| ==> (q + 1 < |lit| && IsLineTerminator(lit[q + 1])) || (q + 1 == |lit| && last);
  }

  /** A directive followed as `Greedy` asks is matched whole. */
  lemma DirectiveMatched(d: string, rest: string, next: string, last: bool)
    requires IsDirective(d) && Greedy(d, next, last)
    requires next <= rest
    requires next == [] && last ==> rest == []
    requires next == [] && !last ==> rest != [] && rest[0] == '%'
    ensures MatchLength(d + rest, 0) == |d|
  {
    var s := d + rest;
    assert s[0] == d[0] && s[1] == d[1];
    assert |d| == 3 ==> s[2] == d[2];
    assert |d| == 2 && rest != [] ==> s[2] == rest[0];
  }

  /** The text of a well-formed decomposition starts with its first
      literal, and when that literal is empty and a directive follows,
      with `%`. */
  lemma JoinHead(parts: seq<string>)
    requires WellSplit(parts)
    ensures parts[0] <= Join(parts)
    ensures |parts| == 1 ==> Join(parts) == parts[0]
    ensures |parts| > 1 && parts[0] == [] ==> Join(parts) != [] && Join(parts)[0] == '%'
  {
    if |parts| == 1 {
      JoinTwo(parts[0], [], []);
      assert parts == [parts[0]];
    } else {
      JoinTwo(parts[0], parts[1], parts[2..]);
      assert parts == [parts[0], parts[1]] + parts[2..];
      assert IsDirective(parts[1]);
    }
  }

  /** Split finds a literal and a directive in front of text it already
      splits correctly. */
  lemma SplitCons(lit: string, d: string, tail: seq<string>)
    requires Inert(lit, false) && IsDirective(d) && WellSplit(tail)
    requires Greedy(d, tail[0], |tail| == 1)
    requires Split(Join(tail)) == tail
    ensures Split(lit + d + Join(tail)) == [lit, d] + tail
  {
    var rest := Join(tail);
    var s := lit + d + rest;
    JoinHead(tail);
    DirectiveMatched(d, rest, tail[0], |tail| == 1);
    var q := |lit|;
    assert s == lit + (d + rest);
    assert s[q..] == d + rest;
    MatchInSuffix(s, q, 0);
    InertHasNoMatch(lit, d + rest, false);
    assert s[..q] == lit;
    assert s[q..q + |d|] == d;
    assert s[q + |d|..] == rest;
  }

  /** Split finds exactly the pieces of any well-formed decomposition. */
  lemma {:induction false} SplitUnique(parts: seq<string>)
    requires WellSplit(parts)
    ensures Split(Join(parts)) == parts
    decreases |parts|
  {
    if |parts| == 1 {
      JoinHead(parts);
      InertHasNoMatch(parts[0], [], true);
      assert parts[0] + [] == parts[0];
      assert parts == [parts[0]];
    } else {
      var lit, d, tail := parts[0], parts[1], parts[2..];
      assert parts == [lit, d] + tail;
      WellSplitTail(parts);
      SplitUnique(tail);
      assert Inert(parts[0], 0 == |parts| - 1) && tail[0] == parts[2];
      SplitCons(lit, d, tail);
      JoinTwo(lit, d, tail);
    }
  }

  // ---------------------------------------------------------------------
  // Layouts written as literals around directives
  // ---------------------------------------------------------------------

  /** A literal with no `%` in it. */
  predicate Plain(lit: string)
  {
    forall k :: 0 <= k < |lit| ==> lit[k] != '%'
  }

  /** Literals `lits` around directives `dirs`, none of them a bare `%-`. */
  predicate LayoutPieces(lits: seq<string>, dirs: seq<string>)
  {
    && |lits| == |dirs| + 1
    && (forall i :: 0 <= i < |lits| ==> Plain(lits[i]))
    && (forall i :: 0 <= i < |dirs| ==> IsDirective(dirs[i]) && dirs[i] != "%-")
  }

  /** The pieces, literal first, alternating. */
  function Interleave(lits: seq<string>, dirs: seq<string>): (p: seq<string>)
    requires |lits| == |dirs| + 1
    ensures |p| == 2 * |dirs| + 1
    decreases |dirs|
  {
    if dirs == [] then [lits[0]] else [lits[0], dirs[0]] + Interleave(lits[1..], dirs[1..])
  }

  /** The text the pieces spell. */
  function Layout(lits: seq<string>, dirs: seq<string>): string
    requires |lits| == |dirs| + 1
    decreases |dirs|
  {
    if dirs == [] then lits[0] else lits[0] + dirs[0] + Layout(lits[1..], dirs[1..])
  }

  lemma {:induction false} InterleaveJoins(lits: seq<string>, dirs: seq<string>)
    requires |lits| == |dirs| + 1
    ensures Join(Interleave(lits, dirs)) == Layout(lits, dirs)
    decreases |dirs|
  {
    if dirs == [] {
      JoinTwo(lits[0], [], []);
    } else {
      InterleaveJoins(lits[1..], dirs[1..]);
      JoinTwo(lits[0], dirs[0], Interleave(lits[1..], dirs[1..]));
    }
  }

  lemma {:induction false} InterleaveWellSplit(lits: seq<string>, dirs: seq<string>)
    requires LayoutPieces(lits, dirs)
    ensures WellSplit(Interleave(lits, dirs))
    decreases |dirs|
  {
    if dirs == [] {
      assert Inert(lits[0], true) by { assert Plain(lits[0]); }
    } else {
      var rest := Interleave(lits[1..], dirs[1..]);
      assert LayoutPieces(lits[1..], dirs[1..]) by {
        forall i | 0 <= i < |lits| - 1 ensures Plain(lits[1..][i]) {
          assert lits[1..][i] == lits[i + 1];
        }
        forall i | 0 <= i < |dirs| - 1 ensures IsDirective(dirs[1..][i]) && dirs[1..][i] != "%-" {
          assert dirs[1..][i] == dirs[i + 1];
        }
      }
      InterleaveWellSplit(lits[1..], dirs[1..]);
      assert Plain(lits[0]) && IsDirective(dirs[0]) && dirs[0] != "%-";
      WellSplitCons(lits[0], dirs[0], rest);
    }
  }

  /** A layout of plain literals around directives splits back into its
      pieces. */
  lemma LayoutSplits(lits: seq<string>, dirs: seq<string>)
    requires LayoutPieces(lits, dirs)
    ensures Split(Layout(lits, dirs)) == Interleave(lits, dirs)
  {
    InterleaveWellSplit(lits, dirs);
    InterleaveJoins(lits, dirs);
    SplitUnique(Interleave(lits, dirs));
  }
}
