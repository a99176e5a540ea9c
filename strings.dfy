/**
 * The Python string builtins the core relies on, restated on `seq<char>`:
 * substring search, `split` on one character and on whitespace, `join`,
 * `replace` of one character and ASCII `lower`.
 */
module Strings {
  import opened Wrappers

  /** `sub` occurs in `s` starting at index `i`. */
  predicate OccursAt(s: string, sub: string, i: nat) {
    i + |sub| <= |s| && s[i..i + |sub|] == sub
  }

  /** Python's `sub in s`. */
  predicate Contains(s: string, sub: string) {
    exists i: nat | i <= |s| :: OccursAt(s, sub, i)
  }

  /** Python's `s.find(sub, start)`, or None where it answers -1. */
  function FindFrom(s: string, sub: string, start: nat): (r: Option<nat>)
    requires start <= |s|
    ensures r.Some? ==> start <= r.value && OccursAt(s, sub, r.value)
    ensures r.Some? ==> forall j: nat :: start <= j < r.value ==> !OccursAt(s, sub, j)
    ensures r.None? ==> forall j: nat :: start <= j <= |s| ==> !OccursAt(s, sub, j)
    decreases |s| - start
  {
    if OccursAt(s, sub, start) then Some(start)
    else if start == |s| then None
    else FindFrom(s, sub, start + 1)
  }

  /** Python's `s.find(sub)`: the first occurrence of `sub`, None exactly when there is none. */
  function Find(s: string, sub: string): (r: Option<nat>)
    ensures r.Some? ==> OccursAt(s, sub, r.value) && forall j: nat :: j < r.value ==> !OccursAt(s, sub, j)
    ensures r.None? <==> !Contains(s, sub)
  {
    FindFrom(s, sub, 0)
  }

  /** The first index of `c` in `s`. */
  function IndexOf(s: string, c: char): (i: nat)
    requires c in s
    ensures i < |s| && s[i] == c && c !in s[..i]
  {
    if s[0] == c then 0
    else
      var k := IndexOf(s[1..], c);
      assert s[..k + 1] == [s[0]] + s[1..][..k];
      k + 1
  }

  /** Python's `s.split(c)` for a one-character separator. */
  function SplitChar(s: string, c: char): (r: seq<string>)
    ensures |r| >= 1
    ensures forall p :: p in r ==> c !in p
    decreases |s|
  {
    if c !in s then [s]
    else
      var i := IndexOf(s, c);
      [s[..i]] + SplitChar(s[i + 1..], c)
  }

  /** Python's `c.join(parts)` for a one-character separator. */
  function Join(parts: seq<string>, c: char): string {
    if |parts| == 0 then ""
    else if |parts| == 1 then parts[0]
    else parts[0] + [c] + Join(parts[1..], c)
  }

  /** The first `c` of `s` is at `n` when `s[n]` is `c` and none comes before. */
  lemma {:induction false} IndexOfAt(s: string, c: char, n: nat)
    requires n < |s| && s[n] == c && c !in s[..n]
    ensures IndexOf(s, c) == n
  {
    if n > 0 {
      assert s[..n][0] == s[0];
      assert s[1..][n - 1] == c;
      assert s[1..][..n - 1] == s[..n][1..];
      IndexOfAt(s[1..], c, n - 1);
    }
  }

  /** Splitting a joined list gives the list back when no part holds the separator. */
  lemma {:induction false} SplitJoin(parts: seq<string>, c: char)
    requires |parts| >= 1
    requires forall p :: p in parts ==> c !in p
    ensures SplitChar(Join(parts, c), c) == parts
  {
    if |parts| > 1 {
      var p0, tail := parts[0], parts[1..];
      var rest := Join(tail, c);
      var s := Join(parts, c);
      assert s == p0 + [c] + rest;
      assert s[..|p0|] == p0;
      IndexOfAt(s, c, |p0|);
      assert s[|p0| + 1..] == rest;
      assert SplitChar(s, c) == [p0] + SplitChar(rest, c);
      assert forall p :: p in tail ==> p in parts;
      SplitJoin(tail, c);
      assert parts == [p0] + tail;
    }
  }

  /** Joining the pieces of a split gives the string back. */
  lemma {:induction false} JoinSplit(s: string, c: char)
    ensures Join(SplitChar(s, c), c) == s
    decreases |s|
  {
    if c in s {
      var i := IndexOf(s, c);
      var rest := SplitChar(s[i + 1..], c);
      JoinSplit(s[i + 1..], c);
      assert SplitChar(s, c) == [s[..i]] + rest;
      assert Join([s[..i]] + rest, c) == s[..i] + [c] + Join(rest, c) by {
        assert ([s[..i]] + rest)[1..] == rest;
      }
      assert s == s[..i] + [c] + s[i + 1..];
    }
  }

  /** The characters Python's `str.split()` treats as whitespace. */
  predicate IsSpace(ch: char) {
    ch == ' ' || '\t' <= ch <= '\r' || '\U{1C}' <= ch <= '\U{1F}'
    || ch == '\U{85}' || ch == '\U{A0}' || ch == '\U{1680}'
    || '\U{2000}' <= ch <= '\U{200A}' || ch == '\U{2028}' || ch == '\U{2029}'
    || ch == '\U{202F}' || ch == '\U{205F}' || ch == '\U{3000}'
  }

  /** The end of the run of non-space characters that starts at `i`. */
  function WordEnd(s: string, i: nat): (k: nat)
    requires i <= |s|
    ensures i <= k <= |s| && (k == |s| || IsSpace(s[k]))
    ensures forall j :: i <= j < k ==> !IsSpace(s[j])
    decreases |s| - i
  {
    if i == |s| || IsSpace(s[i]) then i else WordEnd(s, i + 1)
  }

  /** `s` with its whitespace removed. */
  function NonSpace(s: string): string {
    if s == [] then []
    else (if IsSpace(s[0]) then [] else [s[0]]) + NonSpace(s[1..])
  }

  function Concat(ws: seq<string>): string {
    if ws == [] then [] else ws[0] + Concat(ws[1..])
  }

  /** Python's `s.split()`: the maximal runs of non-whitespace characters, in order. */
  function Words(s: string): (r: seq<string>)
    ensures forall w :: w in r ==> w != [] && forall ch :: ch in w ==> !IsSpace(ch)
    decreases |s|
  {
    if s == [] then []
    else if IsSpace(s[0]) then Words(s[1..])
    else
      var k := WordEnd(s, 0);
      [s[..k]] + Words(s[k..])
  }

  lemma {:induction false} NonSpaceAppend(a: string, b: string)
    ensures NonSpace(a + b) == NonSpace(a) + NonSpace(b)
  {
    if a != [] {
      assert (a + b)[0] == a[0] && (a + b)[1..] == a[1..] + b;
      NonSpaceAppend(a[1..], b);
      var h := if IsSpace(a[0]) then [] else [a[0]];
      assert NonSpace(a + b) == h + NonSpace(a[1..] + b);
      assert NonSpace(a) == h + NonSpace(a[1..]);
    } else {
      assert a + b == b;
    }
  }

  lemma {:induction false} NonSpaceOfWord(w: string)
    requires forall ch :: ch in w ==> !IsSpace(ch)
    ensures NonSpace(w) == w
  {
    if w != [] {
      assert forall ch :: ch in w[1..] ==> ch in w;
      NonSpaceOfWord(w[1..]);
    }
  }

  /** The words hold every non-space character of the text, in order, and nothing else. */
  lemma {:induction false} WordsCover(s: string)
    ensures Concat(Words(s)) == NonSpace(s)
    decreases |s|
  {
    if s != [] {
      if IsSpace(s[0]) {
        WordsCover(s[1..]);
      } else {
        var k := WordEnd(s, 0);
        WordsCover(s[k..]);
        assert s == s[..k] + s[k..];
        NonSpaceAppend(s[..k], s[k..]);
        NonSpaceOfWord(s[..k]);
      }
    }
  }

  /** A whitespace character ends a run: the run starting at `i` in `a` ends at the same place in `a + t`. */
  lemma {:induction false} WordEndBeforeSpace(a: string, t: string, i: nat)
    requires i <= |a| && t != [] && IsSpace(t[0])
    ensures WordEnd(a + t, i) == WordEnd(a, i)
    decreases |a| - i
  {
    if i < |a| && !IsSpace(a[i]) {
      assert (a + t)[i] == a[i];
      WordEndBeforeSpace(a, t, i + 1);
    } else if i == |a| {
      assert (a + t)[i] == t[0];
    }
  }

  /** A text with no whitespace is a single word, or none when empty. */
  lemma WordsOfWord(w: string)
    requires forall ch :: ch in w ==> !IsSpace(ch)
    ensures Words(w) == if w == [] then [] else [w]
  {
    if w != [] {
      assert WordEnd(w, 0) == |w|;
      assert w[..|w|] == w && w[|w|..] == [];
    }
  }

  /** A whitespace character separates: the words on either side of it are taken apart. */
  lemma {:induction false} WordsAtSpace(a: string, c: char, b: string)
    requires IsSpace(c)
    ensures Words(a + [c] + b) == Words(a) + Words(b)
    decreases |a|
  {
    var s := a + [c] + b;
    if a == [] {
      assert s[0] == c && s[1..] == b;
    } else if IsSpace(a[0]) {
      assert s[0] == a[0] && s[1..] == a[1..] + [c] + b;
      WordsAtSpace(a[1..], c, b);
    } else {
      assert s[0] == a[0];
      var t := [c] + b;
      assert s == a + t;
      WordEndBeforeSpace(a, t, 0);
      var k := WordEnd(a, 0);
      assert s[..k] == a[..k];
      assert s[k..] == a[k..] + [c] + b;
      WordsAtSpace(a[k..], c, b);
    }
  }

  /** Splitting words joined by single spaces gives them back, as `" ".join` and `split()` do. */
  lemma {:induction false} WordsJoin(ws: seq<string>)
    requires forall w :: w in ws ==> w != [] && forall ch :: ch in w ==> !IsSpace(ch)
    ensures Words(Join(ws, ' ')) == ws
  {
    if |ws| == 1 {
      assert ws[0] in ws;
      WordsOfWord(ws[0]);
    } else if |ws| > 1 {
      assert ws[0] in ws;
      assert forall w :: w in ws[1..] ==> w in ws;
      WordsJoin(ws[1..]);
      WordsOfWord(ws[0]);
      WordsAtSpace(ws[0], ' ', Join(ws[1..], ' '));
    }
  }

  /** Python's `s.replace(a, b)` for one-character `a` and `b`. */
  function ReplaceChar(s: string, a: char, b: char): (r: string)
    ensures |r| == |s|
    ensures forall i :: 0 <= i < |s| ==> r[i] == if s[i] == a then b else s[i]
  {
    if s == [] then [] else [if s[0] == a then b else s[0]] + ReplaceChar(s[1..], a, b)
  }

  /** Python's `s.replace(a, "")` for one-character `a`. */
  function RemoveChar(s: string, a: char): (r: string)
    ensures a !in r && |r| <= |s|
    ensures forall ch :: ch in r ==> ch in s
  {
    if s == [] then [] else (if s[0] == a then [] else [s[0]]) + RemoveChar(s[1..], a)
  }

  /** `str.lower()` on the ASCII letters; other characters are kept. */
  function LowerAscii(s: string): (r: string)
    ensures |r| == |s|
    ensures forall i :: 0 <= i < |s| ==> r[i] == if 'A' <= s[i] <= 'Z' then (s[i] as int + 32) as char else s[i]
  {
    if s == [] then []
    else [if 'A' <= s[0] <= 'Z' then (s[0] as int + 32) as char else s[0]] + LowerAscii(s[1..])
  }
}
