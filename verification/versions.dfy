/** The version test of the API generator (`newerThanOrEqual` in genstd.js),
    which picks between page layouts of different Zig releases.  A reference
    version is `N.N` or `N.N.N`; the tested version is split at `.` and each
    piece read with `parseInt`, so pieces such as `0-dev` still count by their
    leading digits and a piece without any is `NaN`.
 */
module Versions {
  import opened Results
  import opened Strs

  predicate IsDigit(c: char) {
    '0' <= c <= '9'
  }

  predicate AllDigits(s: string) {
    forall i :: 0 <= i < |s| ==> IsDigit(s[i])
  }

  /** The decimal value of a digit string. */
  function Value(s: string): nat
    requires AllDigits(s)
    decreases |s|
  {
    if |s| == 0 then 0
    else Value(s[..|s| - 1]) * 10 + (s[|s| - 1] as int - '0' as int)
  }

  /** Length of the run of digits at the start of `s`. */
  function DigitRun(s: string): (n: nat)
    ensures n <= |s| && AllDigits(s[..n])
    ensures n < |s| ==> !IsDigit(s[n])
    decreases |s|
  {
    if |s| == 0 || !IsDigit(s[0]) then 0
    else
      var n := 1 + DigitRun(s[1..]);
      assert s[..n] == [s[0]] + s[1..][..n - 1];
      n
  }

  /** `parseInt(s)` on the pieces of a version: the value of the leading
      digits, or `None` for `NaN` when there are none. */
  function ParseInt(s: string): (r: Option<nat>)
    ensures r.None? <==> |s| == 0 || !IsDigit(s[0])
    ensures AllDigits(s) && s != "" ==> r == Some(Value(s))
  {
    var n := DigitRun(s);
    if n == 0 then None
    else
      assert AllDigits(s) ==> s[..|s|] == s;
      Some(Value(s[..n]))
  }

  /** A piece counts by its leading digits only: `0-dev` reads as 0. */
  lemma {:induction false} ParseIntPrefix(d: string, rest: string)
    requires d != "" && AllDigits(d)
    requires rest == "" || !IsDigit(rest[0])
    ensures ParseInt(d + rest) == Some(Value(d))
  {
    DigitRunPrefix(d, rest);
    assert (d + rest)[..|d|] == d;
  }

  lemma {:induction false} DigitRunPrefix(d: string, rest: string)
    requires AllDigits(d)
    requires rest == "" || !IsDigit(rest[0])
    ensures DigitRun(d + rest) == |d|
    decreases |d|
  {
    if |d| > 0 {
      assert (d + rest)[1..] == d[1..] + rest;
      DigitRunPrefix(d[1..], rest);
    } else {
      assert d + rest == rest;
    }
  }

  /** The reference pattern `^\d+\.\d+(\.\d+)?$`: two or three non-empty runs
      of digits separated by `.`. */
  predicate IsVersionRef(ref: string) {
    var p := Split(ref, '.');
    (|p| == 2 || |p| == 3) && forall i :: 0 <= i < |p| ==> p[i] != "" && AllDigits(p[i])
  }

  /** The numeric components of a version, one per `.`-separated piece. */
  function Components(v: string): (c: seq<Option<nat>>)
    ensures |c| == Count(v, '.') + 1
  {
    var p := Split(v, '.');
    seq(|p|, i requires 0 <= i < |p| => ParseInt(p[i]))
  }

  /** `if (a.length < 3) a.push(0)`: a single `0` is appended to a short list. */
  function Pad(c: seq<Option<nat>>): (r: seq<Option<nat>>)
    ensures |c| < 3 ==> r == c + [Some(0)]
    ensures |c| >= 3 ==> r == c
  {
    if |c| < 3 then c + [Some(0)] else c
  }

  /** The component at position `i`; past the end the list yields
      `undefined`, which like `NaN` is neither equal to nor greater than a
      number. */
  function Slot(c: seq<Option<nat>>, i: nat): Option<nat> {
    if i < |c| then c[i] else None
  }

  /** `a[i] > b[i]`, false when either side is not a number. */
  predicate Greater(x: Option<nat>, y: Option<nat>) {
    x.Some? && y.Some? && x.value > y.value
  }

  /** The comparison loop from position `i` on: the first of the first three
      positions where the components are not equal numbers decides; when all
      three are equal the answer is true. */
  function Decide(a: seq<Option<nat>>, b: seq<Option<nat>>, i: nat): bool
    decreases 3 - i
  {
    if i >= 3 then true
    else
      var x, y := Slot(a, i), Slot(b, i);
      if x.Some? && y.Some? && x.value == y.value then Decide(a, b, i + 1)
      else Greater(x, y)
  }

  /** `newerThanOrEqual(ver, ref)`.  A reference that is not a release
      number always passes (a development build counts as newest). */
  function NewerThanOrEqual(ver: string, ref: string): (r: bool)
    ensures !IsVersionRef(ref) ==> r
  {
    if !IsVersionRef(ref) then true
    else Decide(Pad(Components(ver)), Pad(Components(ref)), 0)
  }

  /** Lexicographic order on component triples: the reference definition. */
  predicate LexGe(x: seq<nat>, y: seq<nat>)
    requires |x| == 3 && |y| == 3
  {
    x[0] > y[0] || (x[0] == y[0] && (x[1] > y[1] || (x[1] == y[1] && x[2] >= y[2])))
  }

  /** The three numbers a reference version stands for, `0` filling in a
      missing patch number. */
  function Triple(ref: string): (t: seq<nat>)
    requires IsVersionRef(ref)
    ensures |t| == 3
  {
    var p := Split(ref, '.');
    [Value(p[0]), Value(p[1]), if |p| == 3 then Value(p[2]) else 0]
  }

  /** The padded components of a reference are exactly its triple. */
  lemma PaddedRef(ref: string)
    requires IsVersionRef(ref)
    ensures var c := Pad(Components(ref));
            |c| == 3 && forall i :: 0 <= i < 3 ==> c[i] == Some(Triple(ref)[i])
  {
    var p := Split(ref, '.');
    var c := Components(ref);
    assert c[0] == ParseInt(p[0]) == Some(Value(p[0]));
    assert c[1] == ParseInt(p[1]) == Some(Value(p[1]));
    if |p| == 3 {
      assert c[2] == ParseInt(p[2]) == Some(Value(p[2]));
    }
  }

  /** The first three components of a tested version when they are all
      numbers. */
  predicate Numeric(ver: string) {
    var c := Pad(Components(ver));
    |c| >= 3 && c[0].Some? && c[1].Some? && c[2].Some?
  }

  function Leading(ver: string): (t: seq<nat>)
    requires Numeric(ver)
    ensures |t| == 3
  {
    var c := Pad(Components(ver));
    [c[0].value, c[1].value, c[2].value]
  }

  /** When the first three components of the tested version are numbers, the
      test is the lexicographic order on triples; any further components (as
      in `0.11.0-dev.1+abc`) are ignored. */
  lemma {:induction false} NumericOrder(ver: string, ref: string)
    requires IsVersionRef(ref) && Numeric(ver)
    ensures NewerThanOrEqual(ver, ref) == LexGe(Leading(ver), Triple(ref))
  {
    PaddedRef(ref);
    var a, b := Pad(Components(ver)), Pad(Components(ref));
    var x, y := Leading(ver), Triple(ref);
    assert Decide(a, b, 3);
    assert Decide(a, b, 2) == (x[2] >= y[2]);
    assert Decide(a, b, 1) == (x[1] > y[1] || (x[1] == y[1] && x[2] >= y[2]));
  }

  /** A release number's components are all numbers and are its triple. */
  lemma RefIsNumeric(v: string)
    requires IsVersionRef(v)
    ensures Numeric(v) && Leading(v) == Triple(v)
  {
    PaddedRef(v);
  }

  /** Between release numbers the test is a total preorder: every version is
      newer than or equal to itself, of two versions one is newer than or
      equal to the other, both hold only for versions with the same triple
      (`0.9` and `0.9.0`), and it is transitive. */
  lemma ReleaseOrder(u: string, v: string, w: string)
    requires IsVersionRef(u) && IsVersionRef(v) && IsVersionRef(w)
    ensures NewerThanOrEqual(u, u)
    ensures NewerThanOrEqual(u, v) || NewerThanOrEqual(v, u)
    ensures NewerThanOrEqual(u, v) && NewerThanOrEqual(v, u) <==> Triple(u) == Triple(v)
    ensures NewerThanOrEqual(u, v) && NewerThanOrEqual(v, w) ==> NewerThanOrEqual(u, w)
  {
    RefIsNumeric(u);
    RefIsNumeric(v);
    RefIsNumeric(w);
    NumericOrder(u, u);
    NumericOrder(u, v);
    NumericOrder(v, u);
    NumericOrder(v, w);
    NumericOrder(u, w);
    LexOrder(Triple(u), Triple(v), Triple(w));
  }

  /** The lexicographic order on triples is a total order. */
  lemma LexOrder(x: seq<nat>, y: seq<nat>, z: seq<nat>)
    requires |x| == 3 && |y| == 3 && |z| == 3
    ensures LexGe(x, x)
    ensures LexGe(x, y) || LexGe(y, x)
    ensures LexGe(x, y) && LexGe(y, x) <==> x == y
    ensures LexGe(x, y) && LexGe(y, z) ==> LexGe(x, z)
  {
    if LexGe(x, y) && LexGe(y, x) {
      assert x == [x[0], x[1], x[2]] && y == [y[0], y[1], y[2]];
    }
  }

  /** A tested version whose first piece has no leading digit (a name such as
      `master`) is never newer than or equal to a release number. */
  lemma NotANumberIsOlder(ver: string, ref: string)
    requires IsVersionRef(ref)
    requires ParseInt(Split(ver, '.')[0]).None?
    ensures !NewerThanOrEqual(ver, ref)
  {
    PaddedRef(ref);
    assert Pad(Components(ver))[0] == Components(ver)[0];
  }
}
