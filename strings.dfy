/**
  The string primitives both scripts rely on: the whitespace classes of
  JavaScript (`\s`, `String.prototype.trim`) and of Python (`str.isspace`,
  used by `str.strip` and `str.split()`), ASCII decimal digits, runs of
  characters, trimming, splitting on a character or on whitespace, and the
  decimal form of an integer (Python's `str(int)` and `int(str)`).
 */
module Strings {
  import opened Wrappers

  /** An ASCII decimal digit: JavaScript's `\d`, and the digits the model
      accepts for Python's `int` and `str.isdigit`. */
  predicate IsAsciiDigit(c: char) {
    '0' <= c <= '9'
  }

  /** JavaScript's WhiteSpace and LineTerminator code points: the class `\s`
      and the characters `trim` removes. */
  predicate IsJsSpace(c: char) {
    var n := c as int;
    (0x09 <= n <= 0x0D) || n == 0x20 || n == 0xA0 || n == 0x1680
    || (0x2000 <= n <= 0x200A) || n == 0x2028 || n == 0x2029
    || n == 0x202F || n == 0x205F || n == 0x3000 || n == 0xFEFF
  }

  /** Python's `str.isspace` code points: what `strip()` removes and what
      `split()` splits on. */
  predicate IsPySpace(c: char) {
    var n := c as int;
    (0x09 <= n <= 0x0D) || (0x1C <= n <= 0x20) || n == 0x85 || n == 0xA0
    || n == 0x1680 || (0x2000 <= n <= 0x200A) || n == 0x2028 || n == 0x2029
    || n == 0x202F || n == 0x205F || n == 0x3000
  }

  /** Every character of `s` satisfies `p`. */
  predicate All(s: string, p: char -> bool) {
    forall k :: 0 <= k < |s| ==> p(s[k])
  }

  /** A non-empty run of ASCII digits (JavaScript `\d+`, Python `isdigit`). */
  predicate IsDigitString(s: string) {
    |s| > 0 && All(s, IsAsciiDigit)
  }

  /** The end of the longest run of `p`-characters starting at `i`. */
  function SpanEnd(s: string, i: nat, p: char -> bool): (q: nat)
    requires i <= |s|
    ensures i <= q <= |s|
    ensures forall k :: i <= k < q ==> p(s[k])
    ensures q == |s| || !p(s[q])
    decreases |s| - i
  {
    if i < |s| && p(s[i]) then SpanEnd(s, i + 1, p) else i
  }

  /** The start of the longest run of `p`-characters ending at `j`. */
  function SpanStart(s: string, j: nat, p: char -> bool): (q: nat)
    requires j <= |s|
    ensures q <= j
    ensures forall k :: q <= k < j ==> p(s[k])
    ensures q == 0 || !p(s[q - 1])
  {
    if 0 < j && p(s[j - 1]) then SpanStart(s, j - 1, p) else j
  }

  /** The two contract clauses of SpanEnd determine it. */
  lemma SpanEndIs(s: string, i: nat, p: char -> bool, q: nat)
    requires i <= q <= |s|
    requires forall k :: i <= k < q ==> p(s[k])
    requires q == |s| || !p(s[q])
    ensures SpanEnd(s, i, p) == q
  {
  }

  /** A run that reaches e goes past it. */
  lemma {:induction false} SpanEndPast(s: string, i: nat, p: char -> bool, e: nat)
    requires i <= e < |s|
    requires forall k :: i <= k <= e ==> p(s[k])
    ensures e < SpanEnd(s, i, p)
    decreases e - i
  {
    if i < e {
      SpanEndPast(s, i + 1, p, e);
    }
  }

  /** The two contract clauses of SpanStart determine it. */
  lemma SpanStartIs(s: string, j: nat, p: char -> bool, q: nat)
    requires q <= j <= |s|
    requires forall k :: q <= k < j ==> p(s[k])
    requires q == 0 || !p(s[q - 1])
    ensures SpanStart(s, j, p) == q
  {
  }

  /** `s` with every leading and trailing `p`-character removed
      (TrimCutsEnds states what is removed). */
  function Trim(s: string, p: char -> bool): (r: string)
    ensures |r| <= |s|
    ensures r == [] <==> All(s, p)
    ensures r != [] ==> !p(r[0]) && !p(r[|r| - 1])
  {
    var i := SpanEnd(s, 0, p);
    if i == |s| then []
    else
      var j := SpanStart(s, |s|, p);
      assert !p(s[i]) && i < j;
      s[i..j]
  }

  /** Trim cuts off a prefix and a suffix of `p`-characters and nothing
      else: with the ends of the result not `p`-characters, this fixes the
      two cuts. */
  lemma TrimCutsEnds(s: string, p: char -> bool) returns (i: nat, j: nat)
    ensures i <= j <= |s| && Trim(s, p) == s[i..j]
    ensures All(s[..i], p) && All(s[j..], p)
  {
    i := SpanEnd(s, 0, p);
    if i == |s| {
      j := i;
    } else {
      j := SpanStart(s, |s|, p);
      assert !p(s[i]) && i < j;
    }
  }

  /** JavaScript's `String.prototype.trim`. */
  function JsTrim(s: string): string {
    Trim(s, IsJsSpace)
  }

  /** Python's `str.lstrip()` with no argument. */
  function PyLStrip(s: string): (r: string)
    ensures |r| <= |s|
  {
    if s != [] && IsPySpace(s[0]) then PyLStrip(s[1..]) else s
  }

  /** Python's `str.rstrip()` with no argument. */
  function PyRStrip(s: string): (r: string)
    ensures |r| <= |s|
  {
    if s != [] && IsPySpace(s[|s| - 1]) then PyRStrip(s[..|s| - 1]) else s
  }

  /** Python's `str.strip()` with no argument: the leading and the trailing
      whitespace removed. */
  function PyStrip(s: string): string {
    PyRStrip(PyLStrip(s))
  }

  /** What `strip` leaves is the input with a whitespace prefix and a
      whitespace suffix cut off, and it neither starts nor ends with
      whitespace. */
  lemma {:induction false} PyStripEnds(s: string)
    ensures PyStrip(s) != [] ==> !IsPySpace(PyStrip(s)[0]) && !IsPySpace(PyStrip(s)[|PyStrip(s)| - 1])
    ensures exists i, j :: 0 <= i <= j <= |s| && PyStrip(s) == s[i..j]
                           && All(s[..i], IsPySpace) && All(s[j..], IsPySpace)
  {
    var l := PyLStrip(s);
    var i := PyLStripEnds(s);
    var j := PyRStripEnds(l);
    assert l[..j] == s[i..i + j];
    assert s[i + j..] == l[j..];
  }

  lemma {:induction false} PyLStripEnds(s: string) returns (i: nat)
    ensures i <= |s| && PyLStrip(s) == s[i..]
    ensures All(s[..i], IsPySpace)
    ensures PyLStrip(s) != [] ==> !IsPySpace(PyLStrip(s)[0])
    decreases |s|
  {
    if s != [] && IsPySpace(s[0]) {
      var k := PyLStripEnds(s[1..]);
      assert s[1..][k..] == s[k + 1..];
      assert s[..k + 1] == [s[0]] + s[1..][..k];
      i := k + 1;
    } else {
      i := 0;
    }
  }

  lemma {:induction false} PyRStripEnds(s: string) returns (j: nat)
    ensures j <= |s| && PyRStrip(s) == s[..j]
    ensures All(s[j..], IsPySpace)
    ensures PyRStrip(s) != [] ==> !IsPySpace(PyRStrip(s)[|PyRStrip(s)| - 1])
    decreases |s|
  {
    if s != [] && IsPySpace(s[|s| - 1]) {
      var init := s[..|s| - 1];
      var k := PyRStripEnds(init);
      assert init[..k] == s[..k];
      forall m | 0 <= m < |s| - k ensures IsPySpace(s[k..][m]) {
        if m < |s| - 1 - k {
          assert s[k..][m] == init[k..][m];
        }
      }
      j := k;
    } else {
      j := |s|;
    }
  }

  /** A string that neither starts nor ends with whitespace is its own strip. */
  lemma PyStripOfStripped(s: string)
    requires s != [] ==> !IsPySpace(s[0]) && !IsPySpace(s[|s| - 1])
    ensures PyStrip(s) == s
  {
  }

  /** Stripping twice is stripping once. */
  lemma PyStripIdempotent(s: string)
    ensures PyStrip(PyStrip(s)) == PyStrip(s)
  {
    PyStripEnds(s);
    PyStripOfStripped(PyStrip(s));
  }

  /** A prefix of `p`-characters extends the leading run by its length. */
  lemma SpanEndAfterPrefix(w: string, s: string, p: char -> bool)
    requires All(w, p)
    ensures SpanEnd(w + s, 0, p) == |w| + SpanEnd(s, 0, p)
  {
    var t := w + s;
    var i := SpanEnd(s, 0, p);
    forall k | 0 <= k < |w| + i ensures p(t[k]) {
      if k < |w| { assert t[k] == w[k]; } else { assert t[k] == s[k - |w|]; }
    }
    assert |w| + i == |t| || t[|w| + i] == s[i];
    SpanEndIs(t, 0, p, |w| + i);
  }

  /** A prefix does not change where the trailing run starts, as long as
      `s` has a non-`p` character. */
  lemma SpanStartAfterPrefix(w: string, s: string, p: char -> bool)
    requires SpanStart(s, |s|, p) > 0
    ensures SpanStart(w + s, |w + s|, p) == |w| + SpanStart(s, |s|, p)
  {
    var t := w + s;
    var j := SpanStart(s, |s|, p);
    forall k | |w| + j <= k < |t| ensures p(t[k]) {
      assert t[k] == s[k - |w|];
    }
    assert t[|w| + j - 1] == s[j - 1];
    SpanStartIs(t, |t|, p, |w| + j);
  }

  /** A prefix of `p`-characters does not change what trimming leaves. */
  lemma TrimSkipsPrefix(w: string, s: string, p: char -> bool)
    requires All(w, p)
    ensures Trim(w + s, p) == Trim(s, p)
  {
    var t := w + s;
    var i := SpanEnd(s, 0, p);
    SpanEndAfterPrefix(w, s, p);
    if i < |s| {
      var j := SpanStart(s, |s|, p);
      assert !p(s[i]);
      assert i < j;
      SpanStartAfterPrefix(w, s, p);
      TrimIs(t, p, |w| + i, |w| + j);
      TrimIs(s, p, i, j);
      SliceAfterPrefix(w, s, i, j);
    } else {
      TrimIs(t, p, |t|, |t|);
      TrimIs(s, p, i, i);
    }
  }

  lemma SliceAfterPrefix(w: string, s: string, i: nat, j: nat)
    requires i <= j <= |s|
    ensures (w + s)[|w| + i..|w| + j] == s[i..j]
  {
  }

  /** Trim in terms of the two runs it removes. */
  lemma TrimIs(s: string, p: char -> bool, i: nat, j: nat)
    requires i <= j <= |s| && SpanEnd(s, 0, p) == i
    requires i < |s| ==> SpanStart(s, |s|, p) == j
    ensures Trim(s, p) == s[i..j]
  {
  }

  /** A string that starts and ends with a non-`p` character is its own trim. */
  lemma TrimOfTrimmed(s: string, p: char -> bool)
    requires s != [] ==> !p(s[0]) && !p(s[|s| - 1])
    ensures Trim(s, p) == s
  {
    if s != [] {
      SpanEndIs(s, 0, p, 0);
      var j := SpanStart(s, |s|, p);
      assert j == |s|;
    }
  }

  /** Trimming twice is trimming once. */
  lemma TrimIdempotent(s: string, p: char -> bool)
    ensures Trim(Trim(s, p), p) == Trim(s, p)
  {
    TrimOfTrimmed(Trim(s, p), p);
  }

  /** Python's `s.replace(a, b)` for single characters. */
  function ReplaceChar(s: string, a: char, b: char): (r: string)
    ensures |r| == |s|
    ensures forall k :: 0 <= k < |s| ==> r[k] == (if s[k] == a then b else s[k])
  {
    if s == [] then [] else [if s[0] == a then b else s[0]] + ReplaceChar(s[1..], a, b)
  }

  /** Python's `s.replace(a, '')`: every `a` deleted, everything else
      kept (RemoveCharCounts, RemoveCharConcat). */
  function RemoveChar(s: string, a: char): (r: string)
    ensures a !in r
  {
    if s == [] then [] else (if s[0] == a then [] else [s[0]]) + RemoveChar(s[1..], a)
  }

  /** Every `a` is deleted, and every other character is kept as often as
      it occurs. */
  lemma {:induction false} RemoveCharCounts(s: string, a: char)
    ensures multiset(RemoveChar(s, a)) == multiset(s)[a := 0]
    decreases |s|
  {
    if s != [] {
      RemoveCharCounts(s[1..], a);
      assert s == [s[0]] + s[1..];
    }
  }

  /** Deleting from a concatenation deletes from each part in place, so
      what is kept stays in order (with RemoveCharOne this determines
      RemoveChar). */
  lemma {:induction false} RemoveCharConcat(u: string, v: string, a: char)
    ensures RemoveChar(u + v, a) == RemoveChar(u, a) + RemoveChar(v, a)
    decreases |u|
  {
    if u != [] {
      var h := if u[0] == a then [] else [u[0]];
      var w := u + v;
      RemoveCharConcat(u[1..], v, a);
      assert w[0] == u[0] && w[1..] == u[1..] + v;
      assert RemoveChar(w, a) == h + RemoveChar(u[1..] + v, a);
      AppendAssoc(h, RemoveChar(u[1..], a), RemoveChar(v, a));
    } else {
      assert u + v == v;
    }
  }

  /** A single character is dropped exactly when it is `a`. */
  lemma RemoveCharOne(a: char)
    ensures forall c :: RemoveChar([c], a) == if c == a then [] else [c]
  {
    forall c ensures RemoveChar([c], a) == if c == a then [] else [c] {
      assert [c][1..] == [];
    }
  }

  /** No character of `w` is whitespace. */
  predicate NoSpace(w: string) {
    forall k :: 0 <= k < |w| ==> !IsPySpace(w[k])
  }

  /** The end of the run of non-whitespace characters starting at `i`. */
  function WordEnd(s: string, i: nat): (q: nat)
    requires i <= |s|
    ensures i <= q <= |s|
    decreases |s| - i
  {
    if i < |s| && !IsPySpace(s[i]) then WordEnd(s, i + 1) else i
  }

  /** WordEnd is the first whitespace at or after `i`, or the end. */
  lemma {:induction false} WordEndProps(s: string, i: nat)
    requires i <= |s|
    ensures forall k :: i <= k < WordEnd(s, i) ==> !IsPySpace(s[k])
    ensures WordEnd(s, i) == |s| || IsPySpace(s[WordEnd(s, i)])
    decreases |s| - i
  {
    if i < |s| && !IsPySpace(s[i]) {
      WordEndProps(s, i + 1);
    }
  }

  lemma {:induction false} WordEndIs(s: string, i: nat, q: nat)
    requires i <= q <= |s| && (q == |s| || IsPySpace(s[q]))
    requires forall k :: i <= k < q ==> !IsPySpace(s[k])
    ensures WordEnd(s, i) == q
    decreases q - i
  {
    if i < q {
      WordEndIs(s, i + 1, q);
    }
  }

  /** Python's `s.split()` with no argument: the maximal runs of
      non-whitespace characters, in order. WordsSkipSpace, WordsOfWord and
      WordsCons pin it down on every input. */
  function Words(s: string): (r: seq<string>)
    ensures forall w :: w in r ==> w != [] && NoSpace(w)
    decreases |s|
  {
    if s == [] then []
    else if IsPySpace(s[0]) then Words(s[1..])
    else
      var j := WordEnd(s, 0);
      WordEndProps(s, 0);
      [s[..j]] + Words(s[j..])
  }

  /** There are no words exactly when the text is all whitespace. */
  lemma {:induction false} WordsEmpty(s: string)
    ensures Words(s) == [] <==> All(s, IsPySpace)
    decreases |s|
  {
    if s != [] {
      WordsEmpty(s[1..]);
      if IsPySpace(s[0]) && All(s[1..], IsPySpace) {
        forall k | 0 <= k < |s| ensures IsPySpace(s[k]) {
          if k > 0 { assert s[k] == s[1..][k - 1]; }
        }
      }
    }
  }

  /** Leading whitespace is skipped. */
  lemma {:induction false} WordsSkipSpace(w: string, s: string)
    requires All(w, IsPySpace)
    ensures Words(w + s) == Words(s)
    decreases |w|
  {
    if w != [] {
      assert (w + s)[0] == w[0] && (w + s)[1..] == w[1..] + s;
      WordsSkipSpace(w[1..], s);
    } else {
      assert w + s == s;
    }
  }

  /** A single whitespace-free word splits to itself. */
  lemma WordsOfWord(a: string)
    requires a != [] && NoSpace(a)
    ensures Words(a) == [a]
  {
    WordEndIs(a, 0, |a|);
    assert a[..|a|] == a;
    assert a[|a|..] == [];
  }

  /** A word, a nonempty run of whitespace and more text: the word, then
      the words of the rest. */
  lemma WordsCons(a: string, sp: string, rest: string)
    requires a != [] && NoSpace(a)
    requires sp != [] && All(sp, IsPySpace)
    ensures Words(a + sp + rest) == [a] + Words(rest)
  {
    var s := a + (sp + rest);
    assert s == a + sp + rest;
    assert s[|a|] == sp[0];
    forall k | 0 <= k < |a| ensures !IsPySpace(s[k]) {
      assert s[k] == a[k];
    }
    WordEndIs(s, 0, |a|);
    assert s[..|a|] == a;
    assert s[|a|..] == sp + rest;
    WordsSkipSpace(sp, rest);
  }

  /** Splitting words joined by single spaces gives the words back. */
  lemma {:induction false} WordsOfJoin(ws: seq<string>)
    requires |ws| >= 1
    requires forall k :: 0 <= k < |ws| ==> ws[k] != [] && NoSpace(ws[k])
    ensures Words(Join(ws, ' ')) == ws
    decreases |ws|
  {
    if |ws| == 1 {
      WordsOfWord(ws[0]);
    } else {
      WordsOfJoin(ws[1..]);
      assert Join(ws, ' ') == ws[0] + " " + Join(ws[1..], ' ');
      WordsCons(ws[0], " ", Join(ws[1..], ' '));
      assert [ws[0]] + ws[1..] == ws;
    }
  }

  /** Two whitespace-free words joined by one space split back into the two. */
  lemma WordsOfTwo(a: string, b: string)
    requires a != [] && NoSpace(a)
    requires b != [] && NoSpace(b)
    ensures Words(a + " " + b) == [a, b]
  {
    WordsCons(a, " ", b);
    WordsOfWord(b);
  }

  /** The inverse of SplitOn: the parts with `c` between consecutive ones. */
  function Join(parts: seq<string>, c: char): string {
    if |parts| == 0 then ""
    else if |parts| == 1 then parts[0]
    else parts[0] + [c] + Join(parts[1..], c)
  }

  /** Python's `s.split(c)` and JavaScript's `s.split(c)` for a one-character
      separator: the pieces between the occurrences of `c`, empty pieces kept. */
  function SplitOn(s: string, c: char): (r: seq<string>)
    ensures |r| >= 1
    ensures forall k :: 0 <= k < |r| ==> c !in r[k]
    ensures Join(r, c) == s
  {
    if s == [] then [[]]
    else
      var t := SplitOn(s[1..], c);
      if s[0] == c then
        assert Join([[]] + t, c) == [c] + Join(t, c);
        [[]] + t
      else
        var r := [[s[0]] + t[0]] + t[1..];
        assert Join(r, c) == [s[0]] + Join(t, c) by {
          if |t| > 1 {
            assert r[1..] == t[1..];
          }
        }
        r
  }

  /** Splitting a join of separator-free parts gives the parts back. */
  lemma {:induction false} SplitOnJoin(parts: seq<string>, c: char)
    requires |parts| >= 1
    requires forall k :: 0 <= k < |parts| ==> c !in parts[k]
    ensures SplitOn(Join(parts, c), c) == parts
    decreases |parts|, |parts[0]|
  {
    var s := Join(parts, c);
    if |parts| == 1 {
      SplitNoSeparator(parts[0], c);
    } else if parts[0] == [] {
      assert s == [c] + Join(parts[1..], c);
      assert s[1..] == Join(parts[1..], c);
      SplitOnJoin(parts[1..], c);
      assert [[]] + parts[1..] == parts;
    } else {
      var h := parts[0];
      var rest := [h[1..]] + parts[1..];
      assert Join(rest, c) == s[1..] by {
        assert rest[1..] == parts[1..];
      }
      SplitOnJoin(rest, c);
      assert h[0] != c by { assert h[0] in h; }
      assert [h[0]] + h[1..] == h;
      assert [[h[0]] + h[1..]] + parts[1..] == parts;
    }
  }

  /** A string without the separator splits to itself. */
  lemma {:induction false} SplitNoSeparator(s: string, c: char)
    requires c !in s
    ensures SplitOn(s, c) == [s]
  {
    if s != [] {
      SplitNoSeparator(s[1..], c);
    }
  }

  /** The numeric value of a string of ASCII digits, read left to right. */
  function DigitsValue(s: string): nat
    requires All(s, IsAsciiDigit)
  {
    if s == [] then 0 else 10 * DigitsValue(s[..|s| - 1]) + (s[|s| - 1] as int - '0' as int)
  }

  function Digit(d: nat): (c: char)
    requires d < 10
    ensures IsAsciiDigit(c) && c as int - '0' as int == d
  {
    ('0' as int + d) as char
  }

  /** A digit string is canonical when it has no leading zero (or is "0"). */
  predicate IsCanonical(s: string) {
    IsDigitString(s) && (s[0] == '0' ==> s == "0")
  }

  /** Python's `str(n)` for a natural number n: its canonical decimal digits. */
  function NatToString(n: nat): (r: string)
    ensures IsCanonical(r)
    ensures DigitsValue(r) == n
  {
    if n < 10 then [Digit(n)]
    else
      var r := NatToString(n / 10) + [Digit(n % 10)];
      assert r[..|r| - 1] == NatToString(n / 10);
      r
  }

  /** Distinct numbers print differently. */
  lemma NatToStringInjective()
    ensures forall a: nat, b: nat :: NatToString(a) == NatToString(b) ==> a == b
  {
    forall a: nat, b: nat | NatToString(a) == NatToString(b)
      ensures a == b
    {
      assert DigitsValue(NatToString(a)) == a;
    }
  }

  lemma {:induction false} LeadingDigitPositive(s: string)
    requires IsDigitString(s) && s[0] != '0'
    ensures DigitsValue(s) >= 1
    decreases |s|
  {
    if |s| > 1 {
      LeadingDigitPositive(s[..|s| - 1]);
    }
  }

  /** Printing the value of a canonical digit string gives the string back. */
  lemma {:induction false} CanonicalRoundTrip(s: string)
    requires IsCanonical(s)
    ensures NatToString(DigitsValue(s)) == s
    decreases |s|
  {
    if |s| > 1 {
      var init := s[..|s| - 1];
      var d := s[|s| - 1] as int - '0' as int;
      LeadingDigitPositive(init);
      var v := DigitsValue(init);
      assert DigitsValue(s) == 10 * v + d;
      assert (10 * v + d) / 10 == v && (10 * v + d) % 10 == d;
      CanonicalRoundTrip(init);
      assert s == init + [s[|s| - 1]];
    }
  }

  /** Python's `str(n)` for any integer: the canonical decimal digits of
      its absolute value, after a minus sign when it is negative. */
  function IntToString(n: int): (r: string)
    ensures r != [] && (n < 0 <==> r[0] == '-')
    ensures n >= 0 ==> IsCanonical(r) && DigitsValue(r) == n
    ensures n < 0 ==> IsCanonical(r[1..]) && DigitsValue(r[1..]) == -n
  {
    if n < 0 then "-" + NatToString(-n) else NatToString(n)
  }

  /** Distinct integers print differently. */
  lemma IntToStringInjective(a: int, b: int)
    requires IntToString(a) == IntToString(b)
    ensures a == b
  {
    NatToStringInjective();
    if a < 0 {
      assert IntToString(a)[1..] == NatToString(-a);
      assert IntToString(b)[1..] == NatToString(-b);
    }
  }

  /** Reading a decimal literal as Python's `int()` accepts it from `i` on:
      ASCII digits, with single underscores allowed between two digits.
      `afterDigit` tells that the previous character was a digit, `acc` is
      the value of the digits read so far. None is a ValueError. */
  function DecimalFrom(t: string, i: nat, afterDigit: bool, acc: nat): Option<nat>
    requires i <= |t|
    decreases |t| - i
  {
    if i == |t| then (if afterDigit then Some(acc) else None)
    else if IsAsciiDigit(t[i]) then DecimalFrom(t, i + 1, true, 10 * acc + (t[i] as int - '0' as int))
    else if t[i] == '_' && afterDigit then DecimalFrom(t, i + 1, false, acc)
    else None
  }

  /** Python's `int(s)` on a string: surrounding whitespace ignored, an
      optional sign, then a decimal literal; anything else raises
      ValueError, modelled as None. */
  function PyInt(s: string): Option<int> {
    var t := PyStrip(s);
    if t != [] && (t[0] == '+' || t[0] == '-') then
      match DecimalFrom(t, 1, false, 0)
      case None => None
      case Some(n) => var v: int := n; Some(if t[0] == '-' then -v else v)
    else
      match DecimalFrom(t, 0, false, 0)
      case None => None
      case Some(n) => Some(n)
  }

  /** What DecimalFrom accepts from `i` on: digits and underscores only,
      every underscore followed by a digit and preceded by one. */
  lemma {:induction false} DecimalFromShape(t: string, i: nat, afterDigit: bool, acc: nat)
    requires i <= |t| && DecimalFrom(t, i, afterDigit, acc).Some?
    ensures forall k :: i <= k < |t| ==> IsAsciiDigit(t[k]) || t[k] == '_'
    ensures forall k :: i <= k < |t| && t[k] == '_' ==> k + 1 < |t| && IsAsciiDigit(t[k + 1])
    ensures forall k :: i < k < |t| && t[k] == '_' ==> IsAsciiDigit(t[k - 1])
    ensures (i < |t| && t[i] == '_') || i == |t| ==> afterDigit
    decreases |t| - i
  {
    if i < |t| {
      if IsAsciiDigit(t[i]) {
        DecimalFromShape(t, i + 1, true, 10 * acc + (t[i] as int - '0' as int));
      } else {
        DecimalFromShape(t, i + 1, false, acc);
      }
    }
  }

  /** `int()` accepts only literals: the stripped text, after an optional
      sign, is a nonempty run of digits and underscores that starts and
      ends with a digit and has a digit on both sides of each underscore. */
  lemma PyIntAcceptsLiterals(s: string)
    requires PyInt(s).Some?
    ensures var t := PyStrip(s);
      var b := if t != [] && (t[0] == '+' || t[0] == '-') then 1 else 0;
      b < |t| && IsAsciiDigit(t[b]) && IsAsciiDigit(t[|t| - 1]) &&
      (forall k :: b <= k < |t| ==> IsAsciiDigit(t[k]) || t[k] == '_') &&
      (forall k :: b <= k < |t| && t[k] == '_' ==> IsAsciiDigit(t[k - 1]) && IsAsciiDigit(t[k + 1]))
  {
    var t := PyStrip(s);
    if t != [] && (t[0] == '+' || t[0] == '-') {
      DecimalFromShape(t, 1, false, 0);
    } else {
      DecimalFromShape(t, 0, false, 0);
    }
  }

  /** On plain digits the reading carries the value of the prefix read. */
  lemma {:induction false} DecimalFromDigits(d: string, i: nat)
    requires 0 < i <= |d| && All(d, IsAsciiDigit)
    ensures DecimalFrom(d, i, true, DigitsValue(d[..i])) == Some(DigitsValue(d))
    decreases |d| - i
  {
    if i == |d| {
      assert d[..i] == d;
    } else {
      assert d[..i + 1][..i] == d[..i];
      DecimalFromDigits(d, i + 1);
    }
  }

  /** `int()` of a plain digit string, leading zeros and all, is its value. */
  lemma DigitsRead(d: string)
    requires IsDigitString(d)
    ensures PyInt(d) == Some(DigitsValue(d))
    ensures DecimalFrom(d, 0, false, 0) == Some(DigitsValue(d))
  {
    assert d[..1][..0] == [];
    DecimalFromDigits(d, 1);
    assert IsAsciiDigit(d[0]) && IsAsciiDigit(d[|d| - 1]);
    PyStripOfStripped(d);
  }

  /** A prefix before the literal does not change how it reads. */
  lemma {:induction false} DecimalFromShift(w: string, t: string, i: nat, afterDigit: bool, acc: nat)
    requires i <= |t|
    ensures DecimalFrom(w + t, |w| + i, afterDigit, acc) == DecimalFrom(t, i, afterDigit, acc)
    decreases |t| - i
  {
    if i < |t| {
      assert (w + t)[|w| + i] == t[i];
      if IsAsciiDigit(t[i]) {
        DecimalFromShift(w, t, i + 1, true, 10 * acc + (t[i] as int - '0' as int));
      } else {
        DecimalFromShift(w, t, i + 1, false, acc);
      }
    }
  }

  /** `int` reads back what `str` prints. */
  lemma PyIntOfString(n: int)
    ensures PyInt(IntToString(n)) == Some(n)
  {
    var s := IntToString(n);
    var d := if n < 0 then NatToString(-n) else NatToString(n);
    assert IsAsciiDigit(d[|d| - 1]);
    assert s[|s| - 1] == d[|d| - 1];
    PyStripOfStripped(s);
    DigitsRead(d);
    if n < 0 {
      assert s == "-" + d;
      DecimalFromShift("-", d, 0, false, 0);
    } else {
      assert IsAsciiDigit(s[0]);
    }
  }

  /** Concatenation regrouped, for the steps the solver does not take by itself. */
  lemma AppendAssoc<T>(a: seq<T>, b: seq<T>, c: seq<T>)
    ensures a + b + c == a + (b + c)
  {
  }
}
