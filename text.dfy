/**
 * String primitives the TypeScript code takes from the JavaScript runtime:
 * `String.prototype.trim`, substring search, `startsWith`, and the decimal
 * rendering of a non-negative integer inside a template string.
 */
module Text {
  import opened Wrappers

  /** ECMAScript WhiteSpace and LineTerminator code points: what `trim` removes. */
  predicate IsSpace(c: char) {
    || c == '\t' || c == '\n' || c == '\U{000B}' || c == '\U{000C}' || c == '\r'
    || c == ' ' || c == '\U{00A0}' || c == '\U{1680}' || ('\U{2000}' <= c <= '\U{200A}')
    || c == '\U{2028}' || c == '\U{2029}' || c == '\U{202F}' || c == '\U{205F}'
    || c == '\U{3000}' || c == '\U{FEFF}'
  }

  predicate AllSpace(s: string) {
    forall i :: 0 <= i < |s| ==> IsSpace(s[i])
  }

  /** Number of whitespace characters at the start of `s`. */
  function LeadingSpace(s: string): (n: nat)
    ensures n <= |s|
    ensures AllSpace(s[..n])
    ensures n < |s| ==> !IsSpace(s[n])
  {
    if |s| == 0 || !IsSpace(s[0]) then 0 else 1 + LeadingSpace(s[1..])
  }

  /** Number of whitespace characters at the end of `s`. */
  function TrailingSpace(s: string): (n: nat)
    ensures n <= |s|
    ensures AllSpace(s[|s| - n..])
    ensures n < |s| ==> !IsSpace(s[|s| - n - 1])
  {
    if |s| == 0 || !IsSpace(s[|s| - 1]) then 0
    else
      var t := s[..|s| - 1];
      var n := TrailingSpace(t);
      assert s[|s| - (n + 1)..] == t[|t| - n..] + [s[|s| - 1]];
      1 + n
  }

  /**
   * `s.trim()`: the slice of `s` left after removing the leading and the
   * trailing whitespace; what is removed is whitespace, what is kept neither
   * starts nor ends with it.
   */
  function Trim(s: string): (r: string)
    ensures LeadingSpace(s) + |r| <= |s|
    ensures r == s[LeadingSpace(s)..LeadingSpace(s) + |r|]
    ensures AllSpace(s[..LeadingSpace(s)]) && AllSpace(s[LeadingSpace(s) + |r|..])
    ensures r == [] || (!IsSpace(r[0]) && !IsSpace(r[|r| - 1]))
  {
    var t := s[LeadingSpace(s)..];
    t[..|t| - TrailingSpace(t)]
  }

  /** A string with no whitespace at either end is its own trim. */
  lemma TrimOfTrimmed(s: string)
    requires s == [] || (!IsSpace(s[0]) && !IsSpace(s[|s| - 1]))
    ensures Trim(s) == s
  {
    if s != [] {
      assert LeadingSpace(s) == 0;
      assert TrailingSpace(s) == 0;
    }
  }

  lemma TrimIdempotent(s: string)
    ensures Trim(Trim(s)) == Trim(s)
  {
    TrimOfTrimmed(Trim(s));
  }

  /** A string made only of whitespace trims to the empty string. */
  lemma TrimAllSpace(s: string)
    requires AllSpace(s)
    ensures Trim(s) == []
  {
    assert LeadingSpace(s) == |s|;
  }

  predicate StartsWith(s: string, prefix: string) {
    |prefix| <= |s| && s[..|prefix|] == prefix
  }

  predicate EndsWith(s: string, suffix: string) {
    |suffix| <= |s| && s[|s| - |suffix|..] == suffix
  }

  /** `pat` occurs in `s` starting at index `i`. */
  predicate OccursAt(s: string, pat: string, i: nat) {
    i + |pat| <= |s| && s[i..i + |pat|] == pat
  }

  /** An occurrence inside `s` stays an occurrence, shifted, once text is put around `s`. */
  lemma OccursInContext(a: string, s: string, b: string, pat: string, i: nat)
    requires OccursAt(s, pat, i)
    ensures OccursAt(a + s + b, pat, |a| + i)
  {
    assert (a + s + b)[|a| + i..|a| + i + |pat|] == s[i..i + |pat|];
  }

  /** An occurrence inside `s` stays an occurrence, shifted, once text is put before `s`. */
  lemma OccursAfter(a: string, s: string, pat: string, i: nat)
    requires OccursAt(s, pat, i)
    ensures OccursAt(a + s, pat, |a| + i)
  {
    assert (a + s)[|a| + i..|a| + i + |pat|] == s[i..i + |pat|];
  }

  /** An occurrence stays where it is when text is appended. */
  lemma OccursBefore(s: string, b: string, pat: string, i: nat)
    requires OccursAt(s, pat, i)
    ensures OccursAt(s + b, pat, i)
  {
    assert (s + b)[i..i + |pat|] == s[i..i + |pat|];
  }

  lemma OccursFront(a: string, b: string)
    ensures OccursAt(a + b, a, 0)
  {
    assert (a + b)[..|a|] == a;
  }

  /** An occurrence that reaches the end of `s` is a suffix. */
  lemma OccursAtEnd(s: string, t: string, i: nat)
    requires OccursAt(s, t, i) && i + |t| == |s|
    ensures EndsWith(s, t)
  {
  }

  lemma EndsWithConcat(a: string, b: string)
    ensures EndsWith(a + b, b)
  {
    assert (a + b)[|a|..] == b;
  }

  lemma EndsWithTrans(s: string, t: string, u: string)
    requires EndsWith(s, t) && EndsWith(t, u)
    ensures EndsWith(s, u)
  {
    assert s[|s| - |u|..] == t[|t| - |u|..];
  }

  /** Two occurrences side by side make one. */
  lemma OccursAdjacent(s: string, x: string, y: string, i: nat)
    requires OccursAt(s, x, i) && OccursAt(s, y, i + |x|)
    ensures OccursAt(s, x + y, i)
  {
    assert s[i..i + |x| + |y|] == s[i..i + |x|] + s[i + |x|..i + |x| + |y|];
  }

  /** An occurrence of `small` inside an occurrence of `big` is an occurrence in the whole. */
  lemma OccursWithin(s: string, big: string, i: nat, small: string, j: nat)
    requires OccursAt(s, big, i) && OccursAt(big, small, j)
    ensures OccursAt(s, small, i + j)
  {
    forall k | 0 <= k < |small| ensures s[i + j + k] == small[k] {
      assert s[i + j + k] == s[i..i + |big|][j + k];
    }
  }

  /** The pieces `ps`, joined in order. */
  function Concat(ps: seq<string>): (r: string)
    ensures ps == [] ==> r == []
  {
    if ps == [] then [] else Concat(ps[..|ps| - 1]) + ps[|ps| - 1]
  }

  /** Where piece `k` starts in `Concat(ps)`: the length of the pieces before it. */
  function Offset(ps: seq<string>, k: nat): nat
    requires k <= |ps|
  {
    |Concat(ps[..k])|
  }

  lemma {:induction false} ConcatSplit(ps: seq<string>, k: nat)
    requires k <= |ps|
    ensures Concat(ps) == Concat(ps[..k]) + Concat(ps[k..])
    decreases |ps|
  {
    if k < |ps| {
      var n := |ps| - 1;
      ConcatSplit(ps[..n], k);
      assert ps[..n][..k] == ps[..k];
      assert ps[k..][..|ps[k..]| - 1] == ps[..n][k..];
      assert Concat(ps[k..]) == Concat(ps[..n][k..]) + ps[n];
    } else {
      assert ps[..k] == ps;
      assert ps[k..] == [];
    }
  }

  lemma ConcatSingle(x: string)
    ensures Concat([x]) == x
  {
    assert [x][..0] == [];
  }

  /** The offset of the next piece is past this one. */
  lemma OffsetStep(ps: seq<string>, k: nat)
    requires k < |ps|
    ensures Offset(ps, k + 1) == Offset(ps, k) + |ps[k]|
  {
    var q := ps[..k + 1];
    assert q[..|q| - 1] == ps[..k];
    assert q[|q| - 1] == ps[k];
  }

  /** The pieces from `k` on: piece `k`, then the rest. */
  lemma ConcatFrom(ps: seq<string>, k: nat)
    requires k < |ps|
    ensures Concat(ps[k..]) == ps[k] + Concat(ps[k + 1..])
  {
    var q := ps[k..];
    ConcatSplit(q, 1);
    assert q[..1] == [ps[k]];
    assert q[1..] == ps[k + 1..];
    ConcatSingle(ps[k]);
  }

  /** The joined text around piece `k`. */
  lemma ConcatAround(ps: seq<string>, k: nat)
    requires k < |ps|
    ensures Concat(ps) == Concat(ps[..k]) + ps[k] + Concat(ps[k + 1..])
  {
    ConcatSplit(ps, k);
    ConcatFrom(ps, k);
  }

  /** Piece `k` occurs in the joined text at its offset. */
  lemma ConcatPiece(ps: seq<string>, k: nat)
    requires k < |ps|
    ensures OccursAt(Concat(ps), ps[k], Offset(ps, k))
  {
    ConcatAround(ps, k);
    OccursInContext(Concat(ps[..k]), ps[k], Concat(ps[k + 1..]), ps[k], 0);
  }

  /** Two neighbouring pieces occur together. */
  lemma ConcatNeighbours(ps: seq<string>, k: nat)
    requires k + 1 < |ps|
    ensures OccursAt(Concat(ps), ps[k] + ps[k + 1], Offset(ps, k))
  {
    ConcatPiece(ps, k);
    ConcatPiece(ps, k + 1);
    OffsetStep(ps, k);
    OccursAdjacent(Concat(ps), ps[k], ps[k + 1], Offset(ps, k));
  }

  /** Offsets grow with the index; the last offset is the whole length. */
  lemma {:induction false} OffsetMono(ps: seq<string>, j: nat, k: nat)
    requires j < k <= |ps|
    ensures Offset(ps, j) + |ps[j]| <= Offset(ps, k)
    ensures Offset(ps, |ps|) == |Concat(ps)|
    decreases k - j
  {
    assert ps[..|ps|] == ps;
    OffsetStep(ps, j);
    if j + 1 < k {
      OffsetMono(ps, j + 1, k);
    }
  }

  /** `s.indexOf(pat, from)`: the first occurrence of `pat` at or after `from`. */
  function FindFrom(s: string, pat: string, from: nat): (r: Option<nat>)
    ensures r.Some? ==> from <= r.value && OccursAt(s, pat, r.value)
    ensures r.Some? ==> forall k :: from <= k < r.value ==> !OccursAt(s, pat, k)
    ensures r.None? ==> forall k :: from <= k ==> !OccursAt(s, pat, k)
    decreases |s| - from
  {
    if from + |pat| > |s| then None
    else if OccursAt(s, pat, from) then Some(from)
    else FindFrom(s, pat, from + 1)
  }

  /** An occurrence with none before it, from `from` on, is what `indexOf` finds. */
  lemma FindFromFirst(s: string, pat: string, from: nat, i: nat)
    requires from <= i && OccursAt(s, pat, i)
    requires forall k :: from <= k < i ==> !OccursAt(s, pat, k)
    ensures FindFrom(s, pat, from) == Some(i)
  {
  }

  /** The character of a decimal digit. */
  function DigitChar(d: nat): (c: char)
    requires d < 10
    ensures '0' <= c <= '9' && c as int - '0' as int == d
  {
    ('0' as int + d) as char
  }

  predicate IsDecimal(s: string) {
    |s| > 0 && forall i :: 0 <= i < |s| ==> '0' <= s[i] <= '9'
  }

  /** The value of a string of decimal digits. */
  function DecimalValue(s: string): nat
    requires forall i :: 0 <= i < |s| ==> '0' <= s[i] <= '9'
  {
    if s == [] then 0
    else DecimalValue(s[..|s| - 1]) * 10 + (s[|s| - 1] as int - '0' as int)
  }

  /** `${n}` for a non-negative integer `n`: its decimal digits, without leading zeros. */
  function NatToDecimal(n: nat): (r: string)
    ensures IsDecimal(r)
    ensures r[0] == '0' ==> r == "0"
  {
    if n < 10 then [DigitChar(n)] else NatToDecimal(n / 10) + [DigitChar(n % 10)]
  }

  /** Reading the rendered digits back gives the number. */
  lemma {:induction false} DecimalRoundTrip(n: nat)
    ensures DecimalValue(NatToDecimal(n)) == n
  {
    if n >= 10 {
      DecimalRoundTrip(n / 10);
      var r := NatToDecimal(n);
      assert r[..|r| - 1] == NatToDecimal(n / 10);
    }
  }

  /** Different numbers are rendered differently. */
  lemma DecimalInjective(m: nat, n: nat)
    requires NatToDecimal(m) == NatToDecimal(n)
    ensures m == n
  {
    DecimalRoundTrip(m);
    DecimalRoundTrip(n);
  }

  /* ---------- joining ---------- */

  /** `xs.join(sep)`. */
  function Join(xs: seq<string>, sep: string): string {
    if xs == [] then ""
    else if |xs| == 1 then xs[0]
    else Join(xs[..|xs| - 1], sep) + sep + xs[|xs| - 1]
  }

  /** Joining two non-empty lists puts one separator between their joins. */
  lemma {:induction false} JoinAppend(a: seq<string>, b: seq<string>, sep: string)
    requires a != [] && b != []
    ensures Join(a + b, sep) == Join(a, sep) + sep + Join(b, sep)
    decreases |b|
  {
    var ab := a + b;
    if |b| == 1 {
      assert ab[..|ab| - 1] == a;
    } else {
      var front := b[..|b| - 1];
      var last := b[|b| - 1];
      assert ab[..|ab| - 1] == a + front;
      assert ab[|ab| - 1] == last;
      JoinAppend(a, front, sep);
      Regroup5(Join(a, sep), sep, Join(front, sep), sep, last);
    }
  }

  lemma AppendAssoc<T>(a: seq<T>, b: seq<T>, c: seq<T>)
    ensures a + b + c == a + (b + c)
  {
  }

  lemma Regroup5(p: string, q: string, r: string, s: string, t: string)
    ensures p + q + r + s + t == p + q + (r + s + t)
  {
  }

  /**
   * Every element of a join stands between separators: after the join of the
   * elements before it and a separator (unless it is first), and before a
   * separator and the join of the elements after it (unless it is last).
   */
  lemma JoinElement(xs: seq<string>, sep: string, i: nat)
    requires i < |xs|
    ensures Join(xs, sep) ==
      (if i == 0 then "" else Join(xs[..i], sep) + sep) + xs[i] + (if i + 1 == |xs| then "" else sep + Join(xs[i + 1..], sep))
  {
    var x := [xs[i]];
    assert Join(x, sep) == xs[i];
    if i > 0 {
      JoinAppend(xs[..i], x, sep);
      if i + 1 < |xs| {
        JoinAppend(xs[..i] + x, xs[i + 1..], sep);
        assert xs == xs[..i] + x + xs[i + 1..];
      } else {
        assert xs == xs[..i] + x;
      }
    } else if i + 1 < |xs| {
      JoinAppend(x, xs[1..], sep);
      assert xs == x + xs[1..];
    }
  }
}
