/** The few JavaScript string operations the crawler relies on, with their
    ECMAScript semantics written out: `startsWith`, `endsWith`, `indexOf`,
    `replace` with a string pattern (first occurrence only, `$` patterns in the
    replacement honoured), `split` on one character, `join`, `repeat`, `trim`
    and an ASCII `toLowerCase`.
 */
module Strs {
  import opened Results

  predicate StartsWith(s: string, p: string) {
    |p| <= |s| && s[..|p|] == p
  }

  predicate EndsWith(s: string, p: string) {
    |p| <= |s| && s[|s| - |p|..] == p
  }

  /** Number of occurrences of `c` in `s`. */
  function Count(s: string, c: char): nat {
    multiset(s)[c]
  }

  /** `p` occurs in `s` at position `j`. */
  predicate OccursAt(s: string, p: string, j: nat) {
    j + |p| <= |s| && s[j..j + |p|] == p
  }

  lemma OccursAtTail(s: string, p: string, j: nat)
    requires |s| > 0
    ensures OccursAt(s, p, j + 1) <==> OccursAt(s[1..], p, j)
  {
    if j + 1 + |p| <= |s| {
      assert s[j + 1..j + 1 + |p|] == s[1..][j..j + |p|];
    }
  }

  /** `s.indexOf(p)`: the first position at which `p` occurs in `s`. */
  function IndexOf(s: string, p: string): (r: Option<nat>)
    ensures r.Some? ==> OccursAt(s, p, r.value)
    ensures r.Some? ==> forall j: nat :: j < r.value ==> !OccursAt(s, p, j)
    ensures r.None? ==> forall j: nat :: !OccursAt(s, p, j)
    decreases |s|
  {
    if StartsWith(s, p) then Some(0)
    else if |s| <= |p| then None
    else
      match IndexOf(s[1..], p)
      case None =>
        forall j: nat ensures !OccursAt(s, p, j) {
          if j > 0 { OccursAtTail(s, p, j - 1); }
        }
        None
      case Some(i) =>
        OccursAtTail(s, p, i);
        forall j: nat | j < i + 1 ensures !OccursAt(s, p, j) {
          if j > 0 { OccursAtTail(s, p, j - 1); }
        }
        Some(i + 1)
  }

  /** The replacement text of `String.prototype.replace` for a string pattern
      (GetSubstitution with no capture groups): `$$` is a dollar sign, `$&` the
      matched text, `` $` `` the text before the match and `$'` the text after
      it; any other `$` is kept literally. */
  function Substitute(rep: string, matched: string, before: string, after: string): (r: string)
    ensures '$' !in rep ==> r == rep
    decreases |rep|
  {
    if |rep| == 0 then ""
    else if rep[0] == '$' && |rep| >= 2 && rep[1] == '$' then
      "$" + Substitute(rep[2..], matched, before, after)
    else if rep[0] == '$' && |rep| >= 2 && rep[1] == '&' then
      matched + Substitute(rep[2..], matched, before, after)
    else if rep[0] == '$' && |rep| >= 2 && rep[1] == '`' then
      before + Substitute(rep[2..], matched, before, after)
    else if rep[0] == '$' && |rep| >= 2 && rep[1] == '\'' then
      after + Substitute(rep[2..], matched, before, after)
    else
      [rep[0]] + Substitute(rep[1..], matched, before, after)
  }

  /** The patterns of GetSubstitution, one at a time: `$$`, `$&`, `` $` ``
      and `$'` expand, a `$` before any other character stays, and every
      other character is copied. */
  lemma SubstitutePatterns(t: string, matched: string, before: string, after: string, x: char)
    ensures Substitute("$$" + t, matched, before, after) == "$" + Substitute(t, matched, before, after)
    ensures Substitute("$&" + t, matched, before, after) == matched + Substitute(t, matched, before, after)
    ensures Substitute("$`" + t, matched, before, after) == before + Substitute(t, matched, before, after)
    ensures Substitute("$'" + t, matched, before, after) == after + Substitute(t, matched, before, after)
    ensures x != '$' && x != '&' && x != '`' && x != '\'' ==>
              Substitute(['$', x] + t, matched, before, after)
              == "$" + Substitute([x] + t, matched, before, after)
    ensures Substitute("$", matched, before, after) == "$"
    ensures x != '$' ==> Substitute([x] + t, matched, before, after) == [x] + Substitute(t, matched, before, after)
  {
    assert ("$$" + t)[2..] == t && ("$&" + t)[2..] == t;
    assert ("$`" + t)[2..] == t && ("$'" + t)[2..] == t;
    assert (['$', x] + t)[1..] == [x] + t;
    assert ([x] + t)[1..] == t;
  }

  /** A replacement that is only `$&` puts the matched text back: replacing
      the first occurrence of a pattern by itself changes nothing. */
  lemma ReplaceBySelf(s: string, pat: string)
    ensures ReplaceFirst(s, pat, "$&") == s
  {
    if IndexOf(s, pat).Some? {
      var i := IndexOf(s, pat).value;
      var before, after := s[..i], s[i + |pat|..];
      assert "$&"[2..] == "";
      assert Substitute("$&", pat, before, after) == pat + Substitute("", pat, before, after);
      assert s[i..i + |pat|] == pat;
      assert s == before + s[i..i + |pat|] + after;
    }
  }

  /** `s.replace(pat, rep)` with a string `pat`: only the first occurrence is
      replaced. */
  function ReplaceFirst(s: string, pat: string, rep: string): (r: string)
    ensures IndexOf(s, pat).None? ==> r == s
  {
    match IndexOf(s, pat)
    case None => s
    case Some(i) =>
      s[..i] + Substitute(rep, pat, s[..i], s[i + |pat|..]) + s[i + |pat|..]
  }

  /** A replacement without `$` replaces the first occurrence literally and
      leaves every other character where it was. */
  lemma ReplaceFirstLiteral(s: string, pat: string, rep: string)
    requires '$' !in rep
    requires IndexOf(s, pat).Some?
    ensures var i := IndexOf(s, pat).value;
            ReplaceFirst(s, pat, rep) == s[..i] + rep + s[i + |pat|..]
  {
  }

  /** Replacing a one-character pattern by a one-character text changes only the
      first occurrence and keeps the length. */
  lemma ReplaceFirstChar(s: string, a: char, b: char)
    requires b != '$'
    ensures |ReplaceFirst(s, [a], [b])| == |s|
    ensures a in s && a != b ==> Count(ReplaceFirst(s, [a], [b]), a) == Count(s, a) - 1
    ensures a !in s ==> ReplaceFirst(s, [a], [b]) == s
  {
    match IndexOf(s, [a])
    case None =>
      if a in s {
        var k :| 0 <= k < |s| && s[k] == a;
        assert s[k..k + 1] == [a];
        assert OccursAt(s, [a], k);
      }
    case Some(i) =>
      assert s == s[..i] + [a] + s[i + 1..];
      assert '$' !in [b];
      assert ReplaceFirst(s, [a], [b]) == s[..i] + [b] + s[i + 1..];
  }

  /** `s.split(c)` for a one-character separator: never empty, separator-free
      pieces, and joining them back with `c` gives `s`. */
  function Split(s: string, c: char): (r: seq<string>)
    ensures |r| == Count(s, c) + 1
    ensures forall i :: 0 <= i < |r| ==> c !in r[i]
    ensures Join(r, [c]) == s
  {
    PiecesFacts(s, c);
    Pieces(s, c)
  }

  /** The pieces of `s` between occurrences of `c`, scanning left to right. */
  function Pieces(s: string, c: char): seq<string>
    decreases |s|
  {
    if |s| == 0 then [""]
    else
      var t := Pieces(s[1..], c);
      if s[0] == c then [""] + t else [[s[0]] + t[0]] + t[1..]
  }

  lemma PiecesFacts(s: string, c: char)
    ensures |Pieces(s, c)| == Count(s, c) + 1
    ensures forall i :: 0 <= i < |Pieces(s, c)| ==> c !in Pieces(s, c)[i]
    ensures Join(Pieces(s, c), [c]) == s
  {
    PiecesCount(s, c);
    PiecesSepFree(s, c);
    PiecesJoin(s, c);
  }

  lemma {:induction false} PiecesCount(s: string, c: char)
    ensures |Pieces(s, c)| == Count(s, c) + 1
    decreases |s|
  {
    if |s| > 0 {
      PiecesCount(s[1..], c);
      PiecesNonEmpty(s[1..], c);
      assert s == [s[0]] + s[1..];
      assert multiset(s) == multiset{s[0]} + multiset(s[1..]);
    }
  }

  lemma {:induction false} PiecesSepFree(s: string, c: char)
    ensures forall i :: 0 <= i < |Pieces(s, c)| ==> c !in Pieces(s, c)[i]
    decreases |s|
  {
    if |s| > 0 {
      PiecesSepFree(s[1..], c);
      PiecesNonEmpty(s[1..], c);
      var t := Pieces(s[1..], c);
      var u := Pieces(s, c);
      if s[0] != c {
        assert u == [[s[0]] + t[0]] + t[1..];
        forall i | 0 <= i < |u| ensures c !in u[i] {
          if i > 0 { assert u[i] == t[i]; }
          else { assert u[0] == [s[0]] + t[0]; }
        }
      } else {
        assert u == [""] + t;
        forall i | 0 <= i < |u| ensures c !in u[i] {
          if i > 0 { assert u[i] == t[i - 1]; }
        }
      }
    }
  }

  lemma {:induction false} PiecesJoin(s: string, c: char)
    ensures Join(Pieces(s, c), [c]) == s
    decreases |s|
  {
    if |s| > 0 {
      PiecesJoin(s[1..], c);
      PiecesNonEmpty(s[1..], c);
      var t := Pieces(s[1..], c);
      assert s == [s[0]] + s[1..];
      if s[0] != c {
        assert Pieces(s, c) == [[s[0]] + t[0]] + t[1..];
        JoinHead([s[0]], t, [c]);
      } else {
        var u := [""] + t;
        assert Pieces(s, c) == u;
        assert u[1..] == t;
        assert Join(u, [c]) == "" + [c] + Join(t, [c]);
      }
    }
  }

  /** `parts.join(sep)`. */
  function Join(parts: seq<string>, sep: string): string
    decreases |parts|
  {
    if |parts| == 0 then ""
    else if |parts| == 1 then parts[0]
    else parts[0] + sep + Join(parts[1..], sep)
  }

  lemma JoinHead(x: string, t: seq<string>, sep: string)
    requires |t| >= 1
    ensures Join([x + t[0]] + t[1..], sep) == x + Join(t, sep)
  {
    var u := [x + t[0]] + t[1..];
    assert u[1..] == t[1..];
  }

  lemma JoinAppend(parts: seq<string>, p: string, sep: string)
    requires |parts| >= 1
    ensures Join(parts + [p], sep) == Join(parts, sep) + sep + p
    decreases |parts|
  {
    if |parts| == 1 {
      assert parts + [p] == [parts[0], p];
    } else {
      assert (parts + [p])[1..] == parts[1..] + [p];
      JoinAppend(parts[1..], p, sep);
    }
  }

  /** The last piece of `s.split(c)`, i.e. `s.split(c).at(-1)`. */
  function LastPiece(s: string, c: char): (r: string)
    ensures c !in r
    ensures EndsWith(s, r)
  {
    var parts := Split(s, c);
    var r := parts[|parts| - 1];
    if |parts| == 1 then r
    else
      JoinAppend(parts[..|parts| - 1], r, [c]);
      assert parts == parts[..|parts| - 1] + [r];
      r
  }

  /** `s.split(c).at(0)`: the text before the first `c`, or all of `s`
      when there is none. */
  function FirstPiece(s: string, c: char): (r: string)
    ensures c !in r
    ensures StartsWith(s, r)
    ensures c !in s ==> r == s
    ensures c in s ==> |r| < |s| && s[|r|] == c
  {
    var parts := Split(s, c);
    if |parts| == 1 then parts[0]
    else
      JoinTail(parts, [c]);
      parts[0]
  }

  /** Joining two or more parts puts the separator right after the first. */
  lemma JoinTail(parts: seq<string>, sep: string)
    requires |parts| >= 2
    ensures Join(parts, sep) == parts[0] + sep + Join(parts[1..], sep)
  {
  }

  /** `s.repeat(n)`: `n` copies of `s`, one after the other, so the result
      starts with `s` and repeats with period `|s|`. */
  function Repeat(s: string, n: nat): (r: string)
    ensures |r| == n * |s|
    ensures n > 0 ==> r[..|s|] == s
    ensures forall i :: |s| <= i < |r| ==> r[i] == r[i - |s|]
  {
    if n == 0 then ""
    else
      var t := Repeat(s, n - 1);
      RepeatStep(s, t, n);
      s + t
  }

  /** One more copy in front keeps the period. */
  lemma RepeatStep(s: string, t: string, n: nat)
    requires n > 0 && |t| == (n - 1) * |s|
    requires n > 1 ==> t[..|s|] == s
    requires forall i :: |s| <= i < |t| ==> t[i] == t[i - |s|]
    ensures |s + t| == n * |s| && (s + t)[..|s|] == s
    ensures forall i :: |s| <= i < |s + t| ==> (s + t)[i] == (s + t)[i - |s|]
  {
    var r := s + t;
    forall i | |s| <= i < |r| ensures r[i] == r[i - |s|] {
      assert r[i] == t[i - |s|];
      if i - |s| < |s| {
        assert |t| > 0;
        assert t[i - |s|] == t[..|s|][i - |s|];
      }
    }
  }

  /** White space and line terminators as `String.prototype.trim` removes them
      (the WhiteSpace and LineTerminator productions of ECMA-262). */
  predicate IsJsSpace(c: char) {
    c == ' ' || c == '\t' || c == '\n' || c == '\r' || c == '\U{000B}' || c == '\U{000C}'
    || c == '\U{00A0}' || c == '\U{1680}' || ('\U{2000}' <= c <= '\U{200A}')
    || c == '\U{2028}' || c == '\U{2029}' || c == '\U{202F}' || c == '\U{205F}'
    || c == '\U{3000}' || c == '\U{FEFF}'
  }

  /** `s.trim()`: the slice of `s` between its leading and trailing white space. */
  function Trim(s: string): (r: string)
    ensures |r| <= |s|
    ensures |r| > 0 ==> !IsJsSpace(r[0]) && !IsJsSpace(r[|r| - 1])
    ensures LeadingSpace(s, 0) + |r| <= |s|
    ensures r == s[LeadingSpace(s, 0)..LeadingSpace(s, 0) + |r|]
    ensures forall k :: LeadingSpace(s, 0) + |r| <= k < |s| ==> IsJsSpace(s[k])
  {
    var i := LeadingSpace(s, 0);
    var j := TrailingSpace(s, i, |s|);
    s[i..j]
  }

  /** The index of the first non-space character at or after `from`. */
  function LeadingSpace(s: string, from: nat): (i: nat)
    requires from <= |s|
    ensures from <= i <= |s|
    ensures forall k :: from <= k < i ==> IsJsSpace(s[k])
    ensures i < |s| ==> !IsJsSpace(s[i])
    decreases |s| - from
  {
    if from == |s| || !IsJsSpace(s[from]) then from else LeadingSpace(s, from + 1)
  }

  /** The end of `s[lo..hi]` once trailing space is dropped. */
  function TrailingSpace(s: string, lo: nat, hi: nat): (j: nat)
    requires lo <= hi <= |s|
    ensures lo <= j <= hi
    ensures forall k :: j <= k < hi ==> IsJsSpace(s[k])
    ensures j > lo ==> !IsJsSpace(s[j - 1])
    decreases hi - lo
  {
    if hi == lo || !IsJsSpace(s[hi - 1]) then hi else TrailingSpace(s, lo, hi - 1)
  }

  /** Trimming twice is trimming once. */
  lemma TrimIdempotent(s: string)
    ensures Trim(Trim(s)) == Trim(s)
  {
    var t := Trim(s);
    assert LeadingSpace(t, 0) == 0;
    assert TrailingSpace(t, 0, |t|) == |t|;
  }

  /** `c.toLowerCase()` restricted to ASCII letters. */
  function LowerChar(c: char): char {
    if 'A' <= c <= 'Z' then (c as int - 'A' as int + 'a' as int) as char else c
  }

  function Lower(s: string): (r: string)
    ensures |r| == |s|
    ensures forall i :: 0 <= i < |s| ==> r[i] == LowerChar(s[i])
  {
    seq(|s|, i requires 0 <= i < |s| => LowerChar(s[i]))
  }

  /** A string equals its lower-case form exactly when it has no upper-case letter. */
  lemma LowerFixedPoint(s: string)
    ensures Lower(s) == s <==> forall i :: 0 <= i < |s| ==> !('A' <= s[i] <= 'Z')
  {
    if Lower(s) == s {
      forall i | 0 <= i < |s| ensures !('A' <= s[i] <= 'Z') {
        assert Lower(s)[i] == LowerChar(s[i]);
      }
    }
  }

  /** Every occurrence of `a` replaced by `b`. */
  function MapChar(s: string, a: char, b: char): (r: string)
    ensures |r| == |s|
    ensures forall i :: 0 <= i < |s| ==> r[i] == (if s[i] == a then b else s[i])
  {
    seq(|s|, i requires 0 <= i < |s| => if s[i] == a then b else s[i])
  }

  /** The last position of `c` in `s`, if any (`s.lastIndexOf(c)`). */
  function LastIndexOf(s: string, c: char): (r: Option<nat>)
    ensures r.Some? ==> r.value < |s| && s[r.value] == c && c !in s[r.value + 1..]
    ensures r.None? <==> c !in s
    decreases |s|
  {
    if |s| == 0 then None
    else if s[|s| - 1] == c then Some(|s| - 1)
    else
      var r := LastIndexOf(s[..|s| - 1], c);
      assert s == s[..|s| - 1] + [s[|s| - 1]];
      if r.Some? then
        assert s[r.value + 1..] == s[..|s| - 1][r.value + 1..] + [s[|s| - 1]];
        r
      else r
  }

  /** A string with no separator splits into itself. */
  lemma SplitNoSep(t: string, c: char)
    requires c !in t
    ensures Split(t, c) == [t]
  {
    PiecesNoSep(t, c);
  }

  /** Splitting `p + c + t`, where `t` has no `c`, splits `p` and adds `t`. */
  lemma {:induction false} SplitAppend(p: string, c: char, t: string)
    requires c !in t
    ensures Split(p + [c] + t, c) == Split(p, c) + [t]
  {
    PiecesAppend(p, c, t);
  }

  lemma {:induction false} PiecesAppend(p: string, c: char, t: string)
    requires c !in t
    ensures Pieces(p + [c] + t, c) == Pieces(p, c) + [t]
    decreases |p|
  {
    var s := p + [c] + t;
    if |p| == 0 {
      assert s == [c] + t;
      assert s[1..] == t;
      PiecesNoSep(t, c);
    } else {
      assert s[0] == p[0];
      assert s[1..] == p[1..] + [c] + t;
      PiecesAppend(p[1..], c, t);
      var u := Pieces(p[1..], c);
      assert Pieces(s, c) == (if p[0] == c then [""] + (u + [t])
                              else [[p[0]] + (u + [t])[0]] + (u + [t])[1..]);
      if p[0] != c {
        PiecesNonEmpty(p[1..], c);
        assert (u + [t])[1..] == u[1..] + [t];
      }
    }
  }

  lemma PiecesNonEmpty(s: string, c: char)
    ensures |Pieces(s, c)| > 0
  {
  }

  lemma {:induction false} PiecesNoSep(t: string, c: char)
    requires c !in t
    ensures Pieces(t, c) == [t]
    decreases |t|
  {
    if |t| > 0 {
      PiecesNoSep(t[1..], c);
      assert t == [t[0]] + t[1..];
    }
  }

  /** Joining the pieces of `s` with `d` is `s` with every `c` turned into `d`. */
  lemma JoinSplitIsMap(s: string, c: char, d: char)
    ensures Join(Split(s, c), [d]) == MapChar(s, c, d)
  {
    JoinPiecesIsMap(s, c, d);
  }

  lemma {:induction false} JoinPiecesIsMap(s: string, c: char, d: char)
    ensures Join(Pieces(s, c), [d]) == MapChar(s, c, d)
    decreases |s|
  {
    if |s| > 0 {
      JoinPiecesIsMap(s[1..], c, d);
      PiecesNonEmpty(s[1..], c);
      var t := Pieces(s[1..], c);
      var m := MapChar(s[1..], c, d);
      assert Join(t, [d]) == m;
      MapCharCons(s, c, d);
      if s[0] != c {
        assert Pieces(s, c) == [[s[0]] + t[0]] + t[1..];
        JoinHead([s[0]], t, [d]);
        assert Join(Pieces(s, c), [d]) == [s[0]] + m;
      } else {
        var u := [""] + t;
        assert Pieces(s, c) == u;
        assert u[1..] == t;
        assert Join(u, [d]) == "" + [d] + m;
      }
    }
  }

  lemma MapCharCons(s: string, c: char, d: char)
    requires |s| > 0
    ensures MapChar(s, c, d) == [if s[0] == c then d else s[0]] + MapChar(s[1..], c, d)
  {
  }

  /** Turning every `c` into `d` moves the `c` count onto `d`. */
  lemma {:induction false} MapCharCount(s: string, c: char, d: char)
    requires c != d
    ensures Count(MapChar(s, c, d), d) == Count(s, c) + Count(s, d)
    ensures Count(MapChar(s, c, d), c) == 0
    decreases |s|
  {
    if |s| > 0 {
      MapCharCount(s[1..], c, d);
      assert s == [s[0]] + s[1..];
      MapCharCons(s, c, d);
    }
  }

  /** The first occurrence is the one with none before it. */
  lemma IndexOfFirst(s: string, p: string, i: nat)
    requires OccursAt(s, p, i)
    requires forall j: nat :: j < i ==> !OccursAt(s, p, j)
    ensures IndexOf(s, p) == Some(i)
  {
  }

  /** The first occurrence of a one-character pattern is the first position
      holding that character. */
  lemma IndexOfChar(s: string, c: char, i: nat)
    requires i < |s| && s[i] == c
    requires forall j :: 0 <= j < i ==> s[j] != c
    ensures IndexOf(s, [c]) == Some(i)
  {
    assert OccursAt(s, [c], i) by { assert s[i..i + 1] == [c]; }
    IndexOfFirst(s, [c], i);
  }

  lemma MapCharConcat(a: string, b: string, c: char, d: char)
    ensures MapChar(a + b, c, d) == MapChar(a, c, d) + MapChar(b, c, d)
  {
  }

  lemma MapCharNoop(s: string, c: char, d: char)
    requires c !in s
    ensures MapChar(s, c, d) == s
  {
    var m := MapChar(s, c, d);
    assert forall i :: 0 <= i < |s| ==> m[i] == s[i];
  }

  /** Replacing the first occurrence of a character found at `i`. */
  lemma ReplaceCharAt(s: string, c: char, rep: string, i: nat)
    requires '$' !in rep
    requires i < |s| && s[i] == c
    requires forall j :: 0 <= j < i ==> s[j] != c
    ensures ReplaceFirst(s, [c], rep) == s[..i] + rep + s[i + 1..]
  {
    IndexOfChar(s, c, i);
    ReplaceFirstLiteral(s, [c], rep);
  }

  /** Replacing a pattern the string starts with. */
  lemma ReplacePrefix(s: string, pat: string, rep: string)
    requires '$' !in rep
    requires StartsWith(s, pat)
    ensures ReplaceFirst(s, pat, rep) == rep + s[|pat|..]
  {
    assert IndexOf(s, pat) == Some(0);
  }

  /** Occurrences add up over a concatenation. */
  lemma CountConcat(a: string, b: string, c: char)
    ensures Count(a + b, c) == Count(a, c) + Count(b, c)
  {
    assert multiset(a + b) == multiset(a) + multiset(b);
  }
}
