/** The Swift `String` operations the robot protocol code is built from,
    on strings as sequences of characters (one Swift `Character` = one `char`). */
module SwiftStrings {

  /** Membership in `CharacterSet.whitespacesAndNewlines`: Unicode general
      category Z (space, line and paragraph separators), U+0009 to U+000D
      and U+0085. */
  predicate IsWhitespace(c: char) {
    '\t' <= c <= '\r' || c == ' ' || c == '\U{0085}' || c == '\U{00A0}' || c == '\U{1680}' ||
    '\U{2000}' <= c <= '\U{200A}' || c == '\U{2028}' || c == '\U{2029}' || c == '\U{202F}' ||
    c == '\U{205F}' || c == '\U{3000}'
  }

  /** The character sets the app trims with: `.whitespacesAndNewlines`, and
      `CharacterSet(charactersIn:)` of some characters. */
  datatype CharSet = WhitespacesAndNewlines | CharactersIn(chars: set<char>) {
    predicate Contains(c: char) {
      match this
      case WhitespacesAndNewlines => IsWhitespace(c)
      case CharactersIn(chars) => c in chars
    }
  }

  /** `s.prefix(1) == [c]`, equivalently `s.first == c`. */
  predicate StartsWith(s: string, c: char) {
    |s| > 0 && s[0] == c
  }

  /** `s.dropFirst()`: an empty string stays empty. */
  function DropFirst(s: string): (r: string)
    ensures s == [] ==> r == []
    ensures s != [] ==> [s[0]] + r == s
  {
    if s == [] then [] else s[1..]
  }

  /** `s.dropLast()`: an empty string stays empty. */
  function DropLast(s: string): (r: string)
    ensures s == [] ==> r == []
    ensures s != [] ==> r + [s[|s| - 1]] == s
  {
    if s == [] then [] else s[..|s| - 1]
  }

  /** `n` copies of `c`. */
  function Repeat(c: char, n: nat): (r: string)
    ensures |r| == n && forall i :: 0 <= i < n ==> r[i] == c
  {
    if n == 0 then [] else [c] + Repeat(c, n - 1)
  }

  /** Position of the first `c` in `s`, or `|s|` when there is none. */
  function IndexOf(s: string, c: char): (k: nat)
    ensures k <= |s|
    ensures c !in s[..k]
    ensures k < |s| ==> s[k] == c
  {
    if s == [] then 0
    else if s[0] == c then 0
    else
      var k := 1 + IndexOf(s[1..], c);
      assert s[..k] == [s[0]] + s[1..][..k - 1];
      k
  }

  /** `s` with every `c` taken out. */
  function Remove(s: string, c: char): (r: string)
  {
    if s == [] then [] else (if s[0] == c then [] else [s[0]]) + Remove(s[1..], c)
  }

  /** The pieces laid end to end. */
  function Flatten(ps: seq<string>): string {
    if ps == [] then [] else ps[0] + Flatten(ps[1..])
  }

  /** The pieces with one `sep` between each two neighbours. */
  function Join(ps: seq<string>, sep: char): string {
    if |ps| == 0 then []
    else if |ps| == 1 then ps[0]
    else ps[0] + [sep] + Join(ps[1..], sep)
  }

  /** The pieces, each followed by `sep`: what a loop appending a piece and
      a separator per turn has built. */
  function Terminated(ps: seq<string>, sep: char): string {
    if ps == [] then [] else Terminated(ps[..|ps| - 1], sep) + ps[|ps| - 1] + [sep]
  }

  /** `s.split(separator: sep)` with `omittingEmptySubsequences: true` and no
      split limit: the maximal runs of characters other than `sep`, in order. */
  function Split(s: string, sep: char): (r: seq<string>)
    ensures forall i :: 0 <= i < |r| ==> r[i] != [] && sep !in r[i]
    decreases |s|
  {
    if s == [] then []
    else if s[0] == sep then Split(s[1..], sep)
    else
      var k := IndexOf(s, sep);
      [s[..k]] + Split(s[k..], sep)
  }

  /** `s.split(separator: sep, maxSplits: 1, omittingEmptySubsequences: true)`.
      Separators ahead of the first piece do not count as the one split; the
      second piece is everything after the first separator that ends the first
      piece, verbatim, and is dropped when empty. */
  function SplitOnce(s: string, sep: char): (r: seq<string>)
    ensures |r| <= 2
    ensures forall i :: 0 <= i < |r| ==> r[i] != []
    ensures |r| > 0 ==> sep !in r[0]
    ensures |r| == 2 ==>
      |s| >= |r[0]| + 1 + |r[1]| &&
      s == Repeat(sep, |s| - |r[0]| - 1 - |r[1]|) + r[0] + [sep] + r[1]
  {
    if s == [] then []
    else if s[0] == sep then
      var r := SplitOnce(s[1..], sep);
      if |r| == 2 then
        assert s == [sep] + s[1..];
        SeparatorInFront(s, s[1..], |s| - 1 - |r[0]| - 1 - |r[1]|, r[0], r[1], sep);
        r
      else r
    else
      var k := IndexOf(s, sep);
      if k == |s| then [s]
      else if k + 1 == |s| then [s[..k]]
      else
        assert s == s[..k] + [sep] + s[k + 1..];
        [s[..k], s[k + 1..]]
  }

  /** Strips the leading characters that belong to `cs`. */
  function TrimLeft(s: string, cs: CharSet): (r: string)
    ensures |r| <= |s| && r == s[|s| - |r|..]
    ensures forall i :: 0 <= i < |s| - |r| ==> cs.Contains(s[i])
    ensures r != [] ==> !cs.Contains(r[0])
  {
    if s != [] && cs.Contains(s[0]) then TrimLeft(s[1..], cs) else s
  }

  /** Strips the trailing characters that belong to `cs`. */
  function TrimRight(s: string, cs: CharSet): (r: string)
    ensures |r| <= |s| && r == s[..|r|]
    ensures forall i :: |r| <= i < |s| ==> cs.Contains(s[i])
    ensures r != [] ==> !cs.Contains(r[|r| - 1])
  {
    if s != [] && cs.Contains(s[|s| - 1]) then TrimRight(s[..|s| - 1], cs) else s
  }

  /** `s.trimmingCharacters(in: cs)`: strips every leading and every trailing
      character that belongs to `cs`. */
  function Trim(s: string, cs: CharSet): (r: string)
    ensures |r| <= |s|
    ensures r != [] ==> !cs.Contains(r[0]) && !cs.Contains(r[|r| - 1])
  {
    var l := TrimLeft(s, cs);
    var r := TrimRight(l, cs);
    assert r != [] ==> r[0] == l[0];
    r
  }

  // ---------------------------------------------------------------- Split

  lemma {:induction false} RemoveAppend(a: string, b: string, c: char)
    ensures Remove(a + b, c) == Remove(a, c) + Remove(b, c)
    decreases |a|
  {
    if a != [] {
      assert (a + b)[1..] == a[1..] + b;
      RemoveAppend(a[1..], b, c);
    } else {
      assert a + b == b;
    }
  }

  lemma {:induction false} RemoveAbsent(a: string, c: char)
    requires c !in a
    ensures Remove(a, c) == a
    decreases |a|
  {
    if a != [] {
      RemoveAbsent(a[1..], c);
    }
  }

  /** Splitting neither loses nor invents characters: laid end to end, the
      pieces are the input with its separators taken out. */
  lemma {:induction false} SplitKeepsOthers(s: string, sep: char)
    ensures Flatten(Split(s, sep)) == Remove(s, sep)
    decreases |s|
  {
    if s == [] {
    } else if s[0] == sep {
      SplitKeepsOthers(s[1..], sep);
    } else {
      var k := IndexOf(s, sep);
      var ps := Split(s, sep);
      assert ps == [s[..k]] + Split(s[k..], sep);
      assert ps[1..] == Split(s[k..], sep);
      SplitKeepsOthers(s[k..], sep);
      assert s == s[..k] + s[k..];
      RemoveAppend(s[..k], s[k..], sep);
      RemoveAbsent(s[..k], sep);
    }
  }

  /** Separators in front of the input are skipped. */
  lemma {:induction false} SplitSkipsLeading(n: nat, s: string, sep: char)
    ensures Split(Repeat(sep, n) + s, sep) == Split(s, sep)
  {
    if n > 0 {
      var t := Repeat(sep, n) + s;
      assert t[0] == sep;
      assert t[1..] == Repeat(sep, n - 1) + s;
      SplitSkipsLeading(n - 1, s, sep);
    } else {
      assert Repeat(sep, n) + s == s;
    }
  }

  /** The first separator after a separator-free run is where the run ends. */
  lemma {:induction false} IndexOfAfterRun(a: string, rest: string, sep: char)
    requires sep !in a
    requires rest == [] || rest[0] == sep
    ensures IndexOf(a + rest, sep) == |a|
    decreases |a|
  {
    if a != [] {
      assert (a + rest)[1..] == a[1..] + rest;
      IndexOfAfterRun(a[1..], rest, sep);
    } else {
      assert a + rest == rest;
    }
  }

  /** A separator-free run that ends at a separator (or at the end) is the next piece. */
  lemma SplitTakesPiece(a: string, rest: string, sep: char)
    requires a != [] && sep !in a
    requires rest == [] || rest[0] == sep
    ensures Split(a + rest, sep) == [a] + Split(rest, sep)
  {
    var s := a + rest;
    IndexOfAfterRun(a, rest, sep);
    assert s[..|a|] == a;
    assert s[|a|..] == rest;
  }

  /** Joining separator-free, non-empty pieces and splitting again gives the pieces back. */
  lemma {:induction false} SplitJoin(ps: seq<string>, sep: char)
    requires forall i :: 0 <= i < |ps| ==> ps[i] != [] && sep !in ps[i]
    ensures Split(Join(ps, sep), sep) == ps
  {
    if |ps| == 1 {
      SplitTakesPiece(ps[0], [], sep);
      assert ps[0] + [] == ps[0];
    } else if |ps| > 1 {
      var rest := [sep] + Join(ps[1..], sep);
      assert Join(ps, sep) == ps[0] + rest;
      SplitTakesPiece(ps[0], rest, sep);
      SplitSkipsLeading(1, Join(ps[1..], sep), sep);
      assert Repeat(sep, 1) == [sep];
      SplitJoin(ps[1..], sep);
      assert ps == [ps[0]] + ps[1..];
    }
  }

  /** Exactly two pieces however many separators surround and divide them:
      `S0==P`, `=0=P=` and `0=P` all split into `0` and `P`. */
  lemma SplitTwo(i: nat, a: string, j: nat, b: string, k: nat, sep: char)
    requires a != [] && sep !in a && b != [] && sep !in b && j >= 1
    ensures Split(Repeat(sep, i) + a + Repeat(sep, j) + b + Repeat(sep, k), sep) == [a, b]
  {
    var trailer := Repeat(sep, k);
    var last := b + trailer;
    var tail := Repeat(sep, j) + last;
    assert Split(last, sep) == [b] by {
      assert trailer == [] || trailer[0] == sep;
      SplitTakesPiece(b, trailer, sep);
      assert Split(trailer, sep) == [] by {
        assert trailer == Repeat(sep, k) + [];
        SplitSkipsLeading(k, [], sep);
      }
    }
    assert Split(a + tail, sep) == [a, b] by {
      assert tail[0] == sep;
      SplitTakesPiece(a, tail, sep);
      SplitSkipsLeading(j, last, sep);
    }
    SplitSkipsLeading(i, a + tail, sep);
    Nest(Repeat(sep, i), a, Repeat(sep, j), b, trailer);
  }

  /** Concatenation regrouped to the right. */
  lemma Nest(x: string, a: string, y: string, b: string, z: string)
    ensures x + a + y + b + z == x + (a + (y + (b + z)))
  {
  }

  /** Concatenation regrouped after a first character. */
  lemma NestFront(c: char, x: string, a: string, b: string, d: string)
    ensures [c] + (x + a + b + d) == ([c] + x) + a + b + d
  {
  }

  // ------------------------------------------------------------ SplitOnce

  /** The converse of `SplitOnce`'s contract: after any leading separators, a
      separator-free first piece, one separator and a non-empty rest (which
      may hold further separators) always split into exactly those two pieces. */
  lemma {:induction false} SplitOnceOf(n: nat, a: string, b: string, sep: char)
    requires a != [] && sep !in a && b != []
    ensures SplitOnce(Repeat(sep, n) + a + [sep] + b, sep) == [a, b]
  {
    var s := Repeat(sep, n) + a + [sep] + b;
    if n > 0 {
      assert s[0] == sep;
      assert s[1..] == Repeat(sep, n - 1) + a + [sep] + b;
      SplitOnceOf(n - 1, a, b, sep);
    } else {
      assert s == a + ([sep] + b);
      IndexOfAfterRun(a, [sep] + b, sep);
      assert s[..|a|] == a;
      assert s[|a| + 1..] == b;
    }
  }

  /** A frame whose only separators come before its one piece, or a single one
      right after it, gives just that piece: `0=` and `=x` hold one piece each.
      (Two trailing separators are a piece and a rest: `0==` splits into `0`
      and `=`.) */
  lemma {:induction false} SplitOnceSingle(n: nat, a: string, m: nat, sep: char)
    requires a != [] && sep !in a && m <= 1
    ensures SplitOnce(Repeat(sep, n) + a + Repeat(sep, m), sep) == [a]
  {
    var s := Repeat(sep, n) + a + Repeat(sep, m);
    if n > 0 {
      assert s[0] == sep;
      assert s[1..] == Repeat(sep, n - 1) + a + Repeat(sep, m);
      SplitOnceSingle(n - 1, a, m, sep);
    } else {
      assert s == a + Repeat(sep, m);
      assert s[0] == a[0];
      IndexOfAfterRun(a, Repeat(sep, m), sep);
      if m == 0 {
        assert s == a;
      } else {
        assert s[..|a|] == a;
      }
    }
  }

  /** One more separator in front of a string of the `SplitOnce` shape
      keeps it of that shape. */
  lemma SeparatorInFront(s: string, t: string, n: nat, p: string, q: string, sep: char)
    requires s == [sep] + t && t == Repeat(sep, n) + p + [sep] + q
    ensures s == Repeat(sep, n + 1) + p + [sep] + q
  {
    var rest := Repeat(sep, n);
    assert Repeat(sep, n + 1) == [sep] + rest;
    NestFront(sep, rest, p, [sep], q);
  }

  // ----------------------------------------------------------------- Trim

  /** Trimming leaves nothing exactly when every character is in the set. */
  lemma TrimEmpty(s: string, cs: CharSet)
    ensures Trim(s, cs) == [] <==> forall i :: 0 <= i < |s| ==> cs.Contains(s[i])
  {
    var l := TrimLeft(s, cs);
    if l != [] {
      assert !cs.Contains(s[|s| - |l|]);
    }
  }

  lemma {:induction false} TrimLeftOf(l: string, u: string, cs: CharSet)
    requires forall i :: 0 <= i < |l| ==> cs.Contains(l[i])
    requires u == [] || !cs.Contains(u[0])
    ensures TrimLeft(l + u, cs) == (if u == [] then [] else u)
    decreases |l|
  {
    if l != [] {
      assert (l + u)[1..] == l[1..] + u;
      TrimLeftOf(l[1..], u, cs);
    } else {
      assert l + u == u;
    }
  }

  lemma {:induction false} TrimRightOf(u: string, t: string, cs: CharSet)
    requires forall i :: 0 <= i < |t| ==> cs.Contains(t[i])
    requires u == [] || !cs.Contains(u[|u| - 1])
    ensures TrimRight(u + t, cs) == u
    decreases |t|
  {
    if t != [] {
      var s := u + t;
      assert s[|s| - 1] == t[|t| - 1];
      assert s[..|s| - 1] == u + t[..|t| - 1];
      TrimRightOf(u, t[..|t| - 1], cs);
    } else {
      assert u + t == u;
    }
  }

  /** A string whose two ends lie outside the set is its own trim. */
  lemma TrimmedOf(s: string, cs: CharSet)
    requires s != [] && !cs.Contains(s[0]) && !cs.Contains(s[|s| - 1])
    ensures Trim(s, cs) == s
  {
    assert TrimLeft(s, cs) == s;
    assert TrimRight(s, cs) == s;
  }

  /** `Trim` keeps exactly the middle: whatever runs of `cs` characters
      surround a middle that neither starts nor ends with one are removed,
      and nothing else. */
  lemma TrimOf(l: string, m: string, t: string, cs: CharSet)
    requires forall i :: 0 <= i < |l| ==> cs.Contains(l[i])
    requires forall i :: 0 <= i < |t| ==> cs.Contains(t[i])
    requires m != [] ==> !cs.Contains(m[0]) && !cs.Contains(m[|m| - 1])
    ensures Trim(l + m + t, cs) == m
  {
    if m == [] {
      assert l + m + t == l + t;
      assert forall i :: 0 <= i < |l + t| ==> cs.Contains((l + t)[i]);
    } else {
      assert l + m + t == l + (m + t);
      TrimLeftOf(l, m + t, cs);
      TrimRightOf(m, t, cs);
    }
  }

  lemma {:induction false} JoinSnoc(ps: seq<string>, p: string, sep: char)
    requires ps != []
    ensures Join(ps + [p], sep) == Join(ps, sep) + [sep] + p
    decreases |ps|
  {
    if |ps| == 1 {
      assert ps + [p] == [ps[0], p];
      assert [ps[0], p][1..] == [p];
    } else {
      assert (ps + [p])[1..] == ps[1..] + [p];
      JoinSnoc(ps[1..], p, sep);
    }
  }

  lemma TerminatedSnoc(ps: seq<string>, p: string, sep: char)
    ensures Terminated(ps + [p], sep) == Terminated(ps, sep) + p + [sep]
  {
    assert (ps + [p])[..|ps|] == ps;
  }

  /** Pieces each followed by a separator are the pieces joined by it, plus
      one more separator. */
  lemma {:induction false} TerminatedJoin(ps: seq<string>, sep: char)
    requires ps != []
    ensures Terminated(ps, sep) == Join(ps, sep) + [sep]
    decreases |ps|
  {
    var front, last := ps[..|ps| - 1], ps[|ps| - 1];
    assert ps == front + [last];
    if front == [] {
      assert ps == [last];
    } else {
      TerminatedJoin(front, sep);
      JoinSnoc(front, last, sep);
    }
  }
}
