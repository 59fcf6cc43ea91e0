/** Failure-compatible wrappers and the handful of Python string operations
    (`in`, `split`, `strip`, `lower`, `upper`, `startswith`, `endswith`)
    the screening service relies on, stated over `seq<char>`. */
module Common {

  datatype Option<+T> = None | Some(value: T) {
    /** `dict.get(key, default)`: the value if present, else the default. */
    function GetOr(default: T): T {
      match this
      case Some(v) => v
      case None => default
    }
  }

  datatype Result<+R, +E> = Success(value: R) | Failure(error: E) {
    predicate IsFailure() {
      Failure?
    }

    function PropagateFailure<U>(): Result<U, E>
      requires Failure?
    {
      Failure(error)
    }

    function Extract(): R
      requires Success?
    {
      value
    }
  }

  /** A loop that raises at its first failing step: every value in order,
      or the first failure. */
  function AllOk<R, E>(rs: seq<Result<R, E>>): (r: Result<seq<R>, E>)
    ensures r.Success? <==> forall i :: 0 <= i < |rs| ==> rs[i].Success?
    ensures r.Success? ==> |r.value| == |rs| && forall i :: 0 <= i < |rs| ==> rs[i] == Success(r.value[i])
    ensures r.Failure? ==> exists i :: 0 <= i < |rs| && rs[i] == Failure(r.error)
  {
    if rs == [] then Success([])
    else
      match rs[0]
      case Failure(e) => Failure(e)
      case Success(v) =>
        match AllOk(rs[1..])
        case Failure(e) =>
          assert forall i :: 1 <= i < |rs| ==> rs[i] == rs[1..][i - 1];
          Failure(e)
        case Success(vs) =>
          assert forall i :: 1 <= i < |rs| ==> rs[i] == rs[1..][i - 1];
          Success([v] + vs)
  }

  // ---------------------------------------------------------------------------
  // Substrings

  /** `w` occurs in `s` starting at index `i`. */
  predicate OccursAt(s: string, w: string, i: int) {
    0 <= i && i + |w| <= |s| && s[i..i + |w|] == w
  }

  /** Python's `w in s` for strings. */
  predicate Contains(s: string, w: string) {
    exists i :: 0 <= i <= |s| && OccursAt(s, w, i)
  }

  predicate StartsWith(s: string, p: string) {
    |p| <= |s| && s[..|p|] == p
  }

  predicate EndsWith(s: string, x: string) {
    |x| <= |s| && s[|s| - |x|..] == x
  }

  /** Index of the first occurrence of `w` in `s` at or after `k`, as `str.find` does. */
  function FindFrom(s: string, w: string, k: nat): (r: Option<nat>)
    ensures r.Some? ==> k <= r.value && OccursAt(s, w, r.value)
    ensures r.Some? ==> forall j :: k <= j < r.value ==> !OccursAt(s, w, j)
    ensures r.None? ==> forall j :: k <= j ==> !OccursAt(s, w, j)
    decreases |s| - k
  {
    if k + |w| > |s| then None
    else if s[k..k + |w|] == w then Some(k)
    else FindFrom(s, w, k + 1)
  }

  function Find(s: string, w: string): (r: Option<nat>)
    ensures r.Some? <==> Contains(s, w)
    ensures r.Some? ==> OccursAt(s, w, r.value)
    ensures r.Some? ==> forall j :: 0 <= j < r.value ==> !OccursAt(s, w, j)
  {
    FindFrom(s, w, 0)
  }

  /** `s.split(sep)[0]`: everything before the first `sep`, or all of `s`. */
  function Before(s: string, sep: string): (r: string)
    requires |sep| > 0
    ensures |r| <= |s| && r == s[..|r|]
    ensures Contains(s, sep) ==> OccursAt(s, sep, |r|) && !Contains(r, sep)
    ensures !Contains(s, sep) ==> r == s
  {
    match Find(s, sep)
    case None => s
    case Some(i) =>
      var r := s[..i];
      assert !Contains(r, sep) by {
        forall j | OccursAt(r, sep, j) ensures false {
          assert s[j..j + |sep|] == r[j..j + |sep|];
          assert OccursAt(s, sep, j);
        }
      }
      r
  }

  /** `s.split(sep)[1]`: the text between the first and the second `sep`
      (or the end); `None` where Python raises `IndexError` for want of a
      first separator. */
  function SecondField(s: string, sep: string): (r: Option<string>)
    requires |sep| > 0
    ensures r.Some? <==> Contains(s, sep)
    ensures r.Some? ==> !Contains(r.value, sep)
  {
    match Find(s, sep)
    case None => None
    case Some(i) => Some(Before(s[i + |sep|..], sep))
  }

  // ---------------------------------------------------------------------------
  // Whitespace and case

  /** Python's `str.isspace` for one character: the characters `str.strip()`
      removes when called without arguments. */
  predicate IsSpace(c: char) {
    || '\t' <= c <= '\r'                     // U+0009..U+000D
    || '\U{001C}' <= c <= ' '                // U+001C..U+0020
    || c == '\U{0085}' || c == '\U{00A0}' || c == '\U{1680}'
    || '\U{2000}' <= c <= '\U{200A}'
    || c == '\U{2028}' || c == '\U{2029}' || c == '\U{202F}' || c == '\U{205F}' || c == '\U{3000}'
  }

  /** Every character of `s[lo..hi]` is whitespace. */
  predicate AllSpace(s: string, lo: int, hi: int) {
    forall i :: 0 <= lo <= i < hi <= |s| ==> IsSpace(s[i])
  }

  function TrimLeft(s: string): (r: string)
    ensures |r| <= |s| && r == s[|s| - |r|..]
    ensures AllSpace(s, 0, |s| - |r|)
    ensures |r| > 0 ==> !IsSpace(r[0])
  {
    if |s| > 0 && IsSpace(s[0]) then TrimLeft(s[1..]) else s
  }

  function TrimRight(s: string): (r: string)
    ensures |r| <= |s| && r == s[..|r|]
    ensures AllSpace(s, |r|, |s|)
    ensures |r| > 0 ==> !IsSpace(r[|r| - 1])
  {
    if |s| > 0 && IsSpace(s[|s| - 1]) then TrimRight(s[..|s| - 1]) else s
  }

  /** `s.strip()`. */
  function Strip(s: string): string {
    TrimRight(TrimLeft(s))
  }

  function LowerChar(c: char): char {
    if 'A' <= c <= 'Z' then (c as int + 32) as char else c
  }

  /** `s.lower()` restricted to the ASCII letters. */
  function Lower(s: string): (r: string)
    ensures |r| == |s|
    ensures forall i :: 0 <= i < |s| ==> r[i] == LowerChar(s[i])
  {
    seq(|s|, i requires 0 <= i < |s| => LowerChar(s[i]))
  }

  function UpperChar(c: char): char {
    if 'a' <= c <= 'z' then (c as int - 32) as char
    else if '\U{0430}' <= c <= '\U{044F}' then (c as int - 32) as char   // а..я to А..Я
    else if '\U{0450}' <= c <= '\U{045F}' then (c as int - 80) as char   // ѐ..џ to Ѐ..Џ
    else c
  }

  /** `s.upper()` restricted to the ASCII and Cyrillic letters. */
  function Upper(s: string): (r: string)
    ensures |r| == |s|
    ensures forall i :: 0 <= i < |s| ==> r[i] == UpperChar(s[i])
  {
    seq(|s|, i requires 0 <= i < |s| => UpperChar(s[i]))
  }

  // ---------------------------------------------------------------------------
  // Lemmas

  /** An occurrence inside a slice is an occurrence in the whole string. */
  lemma OccursInSlice(s: string, w: string, a: nat, b: nat, i: int)
    requires a <= b <= |s|
    ensures OccursAt(s[a..b], w, i) <==> (0 <= i && OccursAt(s, w, a + i) && a + i + |w| <= b)
  {
    if 0 <= i && i + |w| <= b - a {
      var x, y := s[a..b][i..i + |w|], s[a + i..a + i + |w|];
      assert |x| == |y|;
      forall k | 0 <= k < |x| ensures x[k] == y[k] {
        assert x[k] == s[a..b][i + k] == s[a + i + k];
      }
      assert x == y;
    }
  }

  /** Leading and trailing whitespace never takes part in an occurrence of a
      word that starts and ends with a non-space character, so `strip()` does
      not change the outcome of `w in s`. */
  lemma ContainsIgnoresPadding(s: string, w: string, a: nat, b: nat)
    requires a <= b <= |s|
    requires AllSpace(s, 0, a) && AllSpace(s, b, |s|)
    requires |w| > 0 && !IsSpace(w[0]) && !IsSpace(w[|w| - 1])
    ensures Contains(s[a..b], w) <==> Contains(s, w)
  {
    if Contains(s[a..b], w) {
      var i :| 0 <= i <= b - a && OccursAt(s[a..b], w, i);
      OccursInSlice(s, w, a, b, i);
    }
    if Contains(s, w) {
      var i :| 0 <= i <= |s| && OccursAt(s, w, i);
      assert s[i..i + |w|] == w;
      assert s[i] == w[0] by { assert s[i..i + |w|][0] == s[i]; }
      assert s[i + |w| - 1] == w[|w| - 1] by { assert s[i..i + |w|][|w| - 1] == s[i + |w| - 1]; }
      OccursInSlice(s, w, a, b, i - a);
    }
  }

  /** `lower()` works character by character, so it commutes with slicing. */
  lemma LowerSlice(s: string, a: nat, b: nat)
    requires a <= b <= |s|
    ensures Lower(s[a..b]) == Lower(s)[a..b]
  {
  }

  /** `strip()` cuts whitespace off both ends and nothing else. */
  lemma StripBounds(s: string) returns (a: nat, b: nat)
    ensures a <= b <= |s| && Strip(s) == s[a..b]
    ensures AllSpace(s, 0, a) && AllSpace(s, b, |s|)
  {
    var l := TrimLeft(s);
    a := |s| - |l|;
    var r := TrimRight(l);
    b := a + |r|;
    SliceOfSuffix(s, a, |r|);
    SpacesAfter(s, a, |r|);
  }

  lemma SliceOfSuffix(s: string, a: nat, n: nat)
    requires a + n <= |s|
    ensures s[a..][..n] == s[a..a + n]
  {
  }

  /** The trailing whitespace `TrimRight` drops from the suffix `s[a..]` is
      trailing whitespace of `s`. */
  lemma SpacesAfter(s: string, a: nat, n: nat)
    requires a <= |s| && n <= |s| - a
    requires AllSpace(s[a..], n, |s| - a)
    ensures AllSpace(s, a + n, |s|)
  {
    forall i | a + n <= i < |s| ensures IsSpace(s[i]) {
      assert s[a..][i - a] == s[i];
    }
  }

  /** Stripping the label text before lower-casing it never changes whether a
      word without surrounding whitespace occurs in it. */
  lemma StripKeepsWords(s: string, w: string)
    requires |w| > 0 && !IsSpace(w[0]) && !IsSpace(w[|w| - 1])
    ensures Contains(Lower(Strip(s)), w) <==> Contains(Lower(s), w)
  {
    var a, b := StripBounds(s);
    var t := Lower(s);
    LowerSlice(s, a, b);
    LowerKeepsSpaces(s, 0, a);
    LowerKeepsSpaces(s, b, |s|);
    ContainsIgnoresPadding(t, w, a, b);
  }

  /** `lower()` leaves whitespace alone. */
  lemma LowerKeepsSpaces(s: string, lo: int, hi: int)
    requires AllSpace(s, lo, hi)
    ensures AllSpace(Lower(s), lo, hi)
  {
    forall i | 0 <= lo <= i < hi <= |s| ensures IsSpace(Lower(s)[i]) {
      assert IsSpace(s[i]) && Lower(s)[i] == s[i];
    }
  }
}
