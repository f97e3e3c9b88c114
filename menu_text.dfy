/**
 * The JavaScript string primitives the menu code relies on, written out over
 * Dafny strings: the `\s` character class and `String.prototype.trim`,
 * `split("\n")`, `indexOf`, and a global replace of one character.
 */
module MenuText {
  import opened Options

  /**
   * Characters matched by `\s` in an ECMAScript regular expression, which are
   * also the characters `trim` removes: the WhiteSpace and LineTerminator
   * productions of ECMAScript (tab, line tabulation, form feed, the space
   * separators of Unicode category Zs, the byte-order mark, and
   * LF, CR, LS and PS).
   */
  predicate IsWs(c: char) {
    || c == '\t' || c == '\n' || c == '\U{B}' || c == '\U{C}' || c == '\r'
    || c == ' ' || c == '\U{A0}' || c == '\U{1680}'
    || ('\U{2000}' <= c <= '\U{200A}')
    || c == '\U{2028}' || c == '\U{2029}' || c == '\U{202F}' || c == '\U{205F}'
    || c == '\U{3000}' || c == '\U{FEFF}'
  }

  /** `\d` (no `u` flag): the ASCII digits. */
  predicate IsDigit(c: char) {
    '0' <= c <= '9'
  }

  /** The word characters that `\b` looks at: `[A-Za-z0-9_]`. */
  predicate IsWordChar(c: char) {
    ('a' <= c <= 'z') || ('A' <= c <= 'Z') || IsDigit(c) || c == '_'
  }

  predicate AllWs(s: string) {
    forall k :: 0 <= k < |s| ==> IsWs(s[k])
  }

  /** A string that `trim` leaves as it is. */
  predicate Trimmed(s: string) {
    s == [] || (!IsWs(s[0]) && !IsWs(s[|s| - 1]))
  }

  /** The number of whitespace characters at the start of `s`. */
  function LeadingWs(s: string): (n: nat)
    ensures n <= |s|
    ensures forall k :: 0 <= k < n ==> IsWs(s[k])
    ensures n == |s| || !IsWs(s[n])
  {
    if s == [] || !IsWs(s[0]) then 0 else 1 + LeadingWs(s[1..])
  }

  /** The number of whitespace characters at the end of `s`. */
  function TrailingWs(s: string): (n: nat)
    ensures n <= |s|
    ensures forall k :: |s| - n <= k < |s| ==> IsWs(s[k])
    ensures n == |s| || !IsWs(s[|s| - n - 1])
  {
    if s == [] || !IsWs(s[|s| - 1]) then 0 else 1 + TrailingWs(s[..|s| - 1])
  }

  function TrimStart(s: string): (r: string)
  {
    s[LeadingWs(s)..]
  }

  function TrimEnd(s: string): (r: string)
  {
    s[..|s| - TrailingWs(s)]
  }

  /** `String.prototype.trim`. Its contents are stated by `TrimIsInfix`. */
  function Trim(s: string): (r: string)
    ensures |r| <= |s|
    ensures Trimmed(r)
    ensures Trimmed(s) ==> r == s
    ensures AllWs(s) ==> r == []
  {
    var t := TrimStart(s);
    assert t == [] || !IsWs(t[0]);
    var r := TrimEnd(t);
    assert r != [] ==> r[0] == t[0];
    assert AllWs(s) ==> t == [];
    r
  }

  /** Removing whitespace that follows a trimmed, non-empty string. */
  lemma {:induction false} TrimDropsTrailingWs(x: string, w: string)
    requires x != [] && Trimmed(x) && AllWs(w)
    ensures Trim(x + w) == x
  {
    var s := x + w;
    assert LeadingWs(s) == 0;
    assert forall k :: |x| <= k < |s| ==> IsWs(s[k]);
    assert !IsWs(s[|x| - 1]);
    assert TrailingWs(s) == |w|;
    assert s[..|x|] == x;
  }

  /**
   * What `trim` gives: the slice of `x` between its maximal leading and
   * trailing whitespace runs.
   */
  lemma TrimIsInfix(x: string)
    ensures var a := LeadingWs(x); a + |Trim(x)| <= |x| && Trim(x) == x[a..a + |Trim(x)|]
    ensures AllWs(x[..LeadingWs(x)]) && AllWs(x[LeadingWs(x) + |Trim(x)|..])
  {
    TrimSlice(x);
    WsBefore(x);
    WsAfter(x);
  }

  /** `trim` keeps the slice that starts after the leading whitespace. */
  lemma TrimSlice(x: string)
    ensures var a := LeadingWs(x); a + |Trim(x)| <= |x| && Trim(x) == x[a..a + |Trim(x)|]
  {
    var a := LeadingWs(x);
    var t := x[a..];
    TrimShape(x);
    SliceWithin(x, Trim(x), a, |t| - TrailingWs(t));
  }

  lemma SliceWithin(x: string, r: string, a: nat, n: nat)
    requires a + n <= |x| && r == x[a..][..n]
    ensures a + |r| <= |x| && r == x[a..a + |r|]
  {
    SliceOfSlice(x, a, n);
  }

  /** `trim` drops the leading whitespace, then the trailing whitespace of what is left. */
  lemma TrimShape(x: string)
    ensures var t := x[LeadingWs(x)..]; Trim(x) == t[..|t| - TrailingWs(t)]
  {
  }

  lemma SliceOfSlice(x: string, a: nat, n: nat)
    requires a + n <= |x|
    ensures x[a..][..n] == x[a..a + n]
  {
  }

  lemma WsBefore(x: string)
    ensures AllWs(x[..LeadingWs(x)])
  {
    var a := LeadingWs(x);
    forall k | 0 <= k < a ensures IsWs(x[..a][k]) {
      assert x[..a][k] == x[k];
    }
  }

  lemma WsAfter(x: string)
    ensures AllWs(x[LeadingWs(x) + |Trim(x)|..])
  {
    var a := LeadingWs(x);
    var t := x[a..];
    TrimShape(x);
    TrailingWsRun(x, a);
  }

  lemma TrailingWsRun(x: string, a: nat)
    requires a <= |x|
    ensures var t := x[a..]; AllWs(x[a + |t| - TrailingWs(t)..])
  {
    var t := x[a..];
    var m := TrailingWs(t);
    var post := x[a + |t| - m..];
    forall k | 0 <= k < |post| ensures IsWs(post[k]) {
      assert post[k] == t[|t| - m + k];
    }
  }

  lemma TrimKeepsChars(s: string)
    ensures forall c :: c in Trim(s) ==> c in s
  {
    var t := TrimStart(s);
    assert forall c :: c in t ==> c in s;
    assert forall c :: c in TrimEnd(t) ==> c in t;
  }

  /** Whitespace on either side does not change what `trim` gives. */
  lemma TrimWsAround(w1: string, y: string, w2: string)
    requires AllWs(w1) && AllWs(w2)
    ensures Trim(w1 + y + w2) == Trim(y)
  {
    TrimIsInfix(y);
    var a := LeadingWs(y);
    var b := a + |Trim(y)|;
    Regroup(w1, y, w2, a, b);
    AllWsAppend(w1, y[..a]);
    AllWsAppend(y[b..], w2);
    TrimOfWsAround(w1 + y[..a], y[a..b], y[b..] + w2);
  }

  lemma Regroup(w1: string, y: string, w2: string, a: nat, b: nat)
    requires a <= b <= |y|
    ensures w1 + y + w2 == (w1 + y[..a]) + y[a..b] + (y[b..] + w2)
  {
    SliceThree(y, a, b);
  }

  lemma SliceThree(x: string, a: nat, b: nat)
    requires a <= b <= |x|
    ensures x == x[..a] + x[a..b] + x[b..]
  {
    assert x[..a] + x[a..b] == x[..b];
  }

  lemma AllWsAppend(u: string, v: string)
    requires AllWs(u) && AllWs(v)
    ensures AllWs(u + v)
  {
    assert forall k :: |u| <= k < |u + v| ==> (u + v)[k] == v[k - |u|];
  }

  /** `trim` gives the trimmed middle of a string whose two ends are whitespace. */
  lemma TrimOfWsAround(pre: string, t: string, post: string)
    requires AllWs(pre) && AllWs(post) && Trimmed(t)
    ensures Trim(pre + t + post) == t
  {
    var s := pre + t + post;
    if t == [] {
      assert AllWs(s);
    } else {
      assert s[|pre|] == t[0];
      assert LeadingWs(s) == |pre|;
      var u := TrimStart(s);
      assert u == t + post;
      assert u[|t| - 1] == t[|t| - 1];
      assert TrailingWs(u) == |post|;
      assert u[..|t|] == t;
    }
  }

  /** The pieces of `s.split(sep)` for a one-character separator. */
  function SplitOn(s: string, sep: char): (r: seq<string>)
    ensures |r| >= 1
    ensures forall k :: 0 <= k < |r| ==> sep !in r[k]
    ensures Join(r, sep) == s
  {
    if s == [] then [[]]
    else
      var rest := SplitOn(s[1..], sep);
      if s[0] == sep then [[]] + rest
      else
        assert Join(rest, sep) == s[1..];
        var r := [[s[0]] + rest[0]] + rest[1..];
        assert r[1..] == rest[1..];
        r
  }

  /** The pieces separated by `sep`: `pieces.join(sep)`. */
  function Join(pieces: seq<string>, sep: char): string
    requires |pieces| >= 1
  {
    if |pieces| == 1 then pieces[0] else pieces[0] + [sep] + Join(pieces[1..], sep)
  }

  /** Splitting a join of separator-free pieces gives the pieces back. */
  lemma {:induction false} SplitJoin(pieces: seq<string>, sep: char)
    requires |pieces| >= 1
    requires forall k :: 0 <= k < |pieces| ==> sep !in pieces[k]
    ensures SplitOn(Join(pieces, sep), sep) == pieces
  {
    SplitUnique(Join(pieces, sep), sep, pieces);
  }

  /** The separator-free pieces that join to `s` are unique. */
  lemma {:induction false} SplitUnique(s: string, sep: char, pieces: seq<string>)
    requires |pieces| >= 1
    requires forall k :: 0 <= k < |pieces| ==> sep !in pieces[k]
    requires Join(pieces, sep) == s
    ensures SplitOn(s, sep) == pieces
    decreases |s|
  {
    if s == [] {
    } else if pieces[0] == [] {
      assert |pieces| > 1;
      assert s[0] == sep && s[1..] == Join(pieces[1..], sep);
      SplitUnique(s[1..], sep, pieces[1..]);
    } else {
      var p0 := pieces[0];
      var tail := [p0[1..]] + pieces[1..];
      assert s[0] == p0[0];
      assert p0[0] != sep by { assert p0[0] in p0; }
      assert forall k :: 0 <= k < |tail| ==> sep !in tail[k] by {
        forall k | 0 <= k < |tail| ensures sep !in tail[k] {
          if k == 0 {
            assert forall c :: c in p0[1..] ==> c in p0;
          } else {
            assert tail[k] == pieces[k];
          }
        }
      }
      if |pieces| == 1 {
        assert Join(tail, sep) == p0[1..];
      } else {
        assert tail[1..] == pieces[1..];
        assert Join(tail, sep) == p0[1..] + [sep] + Join(pieces[1..], sep);
      }
      assert s[1..] == Join(tail, sep);
      SplitUnique(s[1..], sep, tail);
      assert [p0[0]] + p0[1..] == p0;
      assert [[s[0]] + tail[0]] + tail[1..] == pieces;
    }
  }

  /** `pat` occurs in `s` at index `i`. */
  predicate OccursAt(s: string, pat: string, i: nat) {
    i + |pat| <= |s| && s[i..i + |pat|] == pat
  }

  /** `s.indexOf(pat, from)`: the first occurrence of `pat` at or after `from`. */
  function IndexFrom(s: string, pat: string, from: nat): (r: Option<nat>)
    ensures r.Some? ==> from <= r.value && OccursAt(s, pat, r.value)
    ensures r.Some? ==> forall j :: from <= j < r.value ==> !OccursAt(s, pat, j)
    ensures r.None? ==> forall j :: from <= j ==> !OccursAt(s, pat, j)
    decreases |s| - from
  {
    if from + |pat| > |s| then None
    else if s[from..from + |pat|] == pat then Some(from)
    else IndexFrom(s, pat, from + 1)
  }

  /** `s.indexOf(pat)`. */
  function IndexOf(s: string, pat: string): Option<nat> {
    IndexFrom(s, pat, 0)
  }

  /** `s.includes(pat)`. */
  predicate Contains(s: string, pat: string) {
    IndexOf(s, pat).Some?
  }

  /** A pattern with a character `s` lacks does not occur in `s`. */
  lemma NotContainsByChar(s: string, pat: string, c: char)
    requires c in pat && c !in s
    ensures !Contains(s, pat)
  {
  }

  /** `s.replace(/c/g, rep)` for a single character `c`. */
  function Substitute(s: string, c: char, rep: string): (r: string)
    ensures c !in s ==> r == s
    ensures c !in rep ==> c !in r
    ensures forall d :: d in r ==> d in s || d in rep
  {
    if s == [] then []
    else (if s[0] == c then rep else [s[0]]) + Substitute(s[1..], c, rep)
  }

  /** One character is replaced by `rep` when it is `c`, and kept otherwise. */
  lemma SubstituteChar(d: char, c: char, rep: string)
    ensures Substitute([d], c, rep) == (if d == c then rep else [d])
  {
    assert [d][1..] == [];
  }

  /** The replace works piece by piece, so with `SubstituteChar` it maps each character on its own. */
  lemma {:induction false} SubstituteAppend(u: string, v: string, c: char, rep: string)
    ensures Substitute(u + v, c, rep) == Substitute(u, c, rep) + Substitute(v, c, rep)
  {
    if u == [] {
      assert u + v == v;
    } else {
      assert (u + v)[0] == u[0] && (u + v)[1..] == u[1..] + v;
      SubstituteAppend(u[1..], v, c, rep);
    }
  }
}
