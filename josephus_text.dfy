/**
  `parse_josephus_text` in process_data.py: the text of Josephus cut at each
  reference marker (`I.1.2`, `P.1.1`, ...) that stands between two newlines
  into a map from each
  marker to the text that follows it.
 */
module JosephusText {
  import opened Wrappers
  import opened Strings

  // ---------------------------------------------------------------------
  // The marker pattern [IVXPA-Z0-9]+\.[0-9]+\.[0-9]+
  // ---------------------------------------------------------------------

  /** The class `[IVXPA-Z0-9]`, which is `[A-Z0-9]`. */
  predicate IsRefChar(c: char) {
    ('A' <= c <= 'Z') || ('0' <= c <= '9')
  }

  /** Where a left-to-right reading of a marker stands: before or inside
      the leading run, the middle number or the last number. */
  datatype Stage = RefStart | RefRun | MidStart | MidRun | LastStart | LastRun

  /** `t[i..]` completes a marker from stage `st`. No class of the pattern
      holds a dot, so the reading is deterministic and the greedy regex
      accepts exactly what this accepts. */
  predicate MarkerFrom(t: string, i: nat, st: Stage)
    requires i <= |t|
    decreases |t| - i
  {
    if i == |t| then st == LastRun
    else
      match st
      case RefStart => IsRefChar(t[i]) && MarkerFrom(t, i + 1, RefRun)
      case RefRun =>
        if t[i] == '.' then MarkerFrom(t, i + 1, MidStart)
        else IsRefChar(t[i]) && MarkerFrom(t, i + 1, RefRun)
      case MidStart => IsAsciiDigit(t[i]) && MarkerFrom(t, i + 1, MidRun)
      case MidRun =>
        if t[i] == '.' then MarkerFrom(t, i + 1, LastStart)
        else IsAsciiDigit(t[i]) && MarkerFrom(t, i + 1, MidRun)
      case LastStart => IsAsciiDigit(t[i]) && MarkerFrom(t, i + 1, LastRun)
      case LastRun => IsAsciiDigit(t[i]) && MarkerFrom(t, i + 1, LastRun)
  }

  /** The whole of `t` is a reference marker. */
  predicate IsMarker(t: string) {
    MarkerFrom(t, 0, RefStart)
  }

  /** The pattern written out: `t[..a]` a nonempty run of `[A-Z0-9]`, a dot
      at `a`, a nonempty run of digits, a dot at `b`, a nonempty run of
      digits to the end. */
  predicate MarkerShape(t: string, a: nat, b: nat) {
    0 < a && a + 1 < b && b + 1 < |t| && t[a] == '.' && t[b] == '.' &&
    (forall j :: 0 <= j < a ==> IsRefChar(t[j])) &&
    (forall j :: a < j < b ==> IsAsciiDigit(t[j])) &&
    (forall j :: b < j < |t| ==> IsAsciiDigit(t[j]))
  }

  lemma {:induction false} LastRunIs(t: string, i: nat)
    requires i <= |t|
    ensures MarkerFrom(t, i, LastRun) <==> forall j :: i <= j < |t| ==> IsAsciiDigit(t[j])
    decreases |t| - i
  {
    if i < |t| {
      LastRunIs(t, i + 1);
    }
  }

  /** A run of `[A-Z0-9]` up to the dot at `a` leads to the middle number. */
  lemma {:induction false} RefRunIs(t: string, i: nat, a: nat)
    requires i <= a < |t| && t[a] == '.'
    requires forall j :: i <= j < a ==> IsRefChar(t[j])
    ensures MarkerFrom(t, i, RefRun) == MarkerFrom(t, a + 1, MidStart)
    decreases a - i
  {
    if i < a {
      RefRunIs(t, i + 1, a);
    }
  }

  /** A run of digits up to the dot at `b` leads to the last number. */
  lemma {:induction false} MidRunIs(t: string, i: nat, b: nat)
    requires i <= b < |t| && t[b] == '.'
    requires forall j :: i <= j < b ==> IsAsciiDigit(t[j])
    ensures MarkerFrom(t, i, MidRun) == MarkerFrom(t, b + 1, LastStart)
    decreases b - i
  {
    if i < b {
      MidRunIs(t, i + 1, b);
    }
  }

  /** An accepted leading run ends at a dot. */
  lemma {:induction false} RefRunEnds(t: string, i: nat) returns (a: nat)
    requires i <= |t| && MarkerFrom(t, i, RefRun)
    ensures i <= a < |t| && t[a] == '.'
    ensures forall j :: i <= j < a ==> IsRefChar(t[j])
    ensures MarkerFrom(t, a + 1, MidStart)
    decreases |t| - i
  {
    if t[i] == '.' {
      a := i;
    } else {
      a := RefRunEnds(t, i + 1);
    }
  }

  /** An accepted middle run ends at a dot. */
  lemma {:induction false} MidRunEnds(t: string, i: nat) returns (b: nat)
    requires i <= |t| && MarkerFrom(t, i, MidRun)
    ensures i <= b < |t| && t[b] == '.'
    ensures forall j :: i <= j < b ==> IsAsciiDigit(t[j])
    ensures MarkerFrom(t, b + 1, LastStart)
    decreases |t| - i
  {
    if t[i] == '.' {
      b := i;
    } else {
      b := MidRunEnds(t, i + 1);
    }
  }

  /** The reading accepts exactly the strings of the pattern. */
  lemma MarkerShapeIff(t: string)
    ensures IsMarker(t) <==> exists a: nat, b: nat :: MarkerShape(t, a, b)
  {
    if IsMarker(t) {
      var a := RefRunEnds(t, 1);
      var b := MidRunEnds(t, a + 2);
      LastRunIs(t, b + 2);
      assert MarkerShape(t, a, b);
    }
    if exists a: nat, b: nat :: MarkerShape(t, a, b) {
      var a: nat, b: nat :| MarkerShape(t, a, b);
      RefRunIs(t, 1, a);
      MidRunIs(t, a + 2, b);
      LastRunIs(t, b + 2);
    }
  }

  /** A marker holds no newline, starts with `[A-Z0-9]` and ends with a digit. */
  lemma MarkerChars(t: string)
    requires IsMarker(t)
    ensures '\n' !in t
    ensures t != [] && IsRefChar(t[0]) && IsAsciiDigit(t[|t| - 1])
  {
    MarkerShapeIff(t);
    var a: nat, b: nat :| MarkerShape(t, a, b);
    forall j | 0 <= j < |t| ensures t[j] != '\n' {
      if j < a {
        assert IsRefChar(t[j]);
      } else if a < j < b {
        assert IsAsciiDigit(t[j]);
      } else if b < j {
        assert IsAsciiDigit(t[j]);
      }
    }
  }

  /** A marker has no surrounding whitespace, so `strip` leaves it alone. */
  lemma MarkerIsStripped(t: string)
    requires IsMarker(t)
    ensures PyStrip(t) == t
  {
    MarkerChars(t);
    PyStripOfStripped(t);
  }

  // ---------------------------------------------------------------------
  // The split: re.split(r'\n(<marker>)\n', content)
  // ---------------------------------------------------------------------

  /** The end of the line that starts at `i`. */
  function LineEnd(s: string, i: nat): (q: nat)
    requires i <= |s|
    ensures i <= q <= |s| && (q == |s| || s[q] == '\n')
    decreases |s| - i
  {
    if i < |s| && s[i] != '\n' then LineEnd(s, i + 1) else i
  }

  lemma {:induction false} LineEndIs(s: string, i: nat, q: nat)
    requires i <= q <= |s| && (q == |s| || s[q] == '\n')
    requires forall j :: i <= j < q ==> s[j] != '\n'
    ensures LineEnd(s, i) == q
    decreases q - i
  {
    if i < q {
      LineEndIs(s, i + 1, q);
    }
  }

  /** A match of the split pattern starting at p: a newline, a marker and
      the newline that ends it. A marker holds no newline, so it is the rest
      of the line. Returns the index of the closing newline. */
  function MarkerAt(s: string, p: nat): (q: Option<nat>)
    requires p <= |s|
    ensures q.Some? ==> p < q.value < |s| && s[p] == '\n' && s[q.value] == '\n'
                        && IsMarker(s[p + 1..q.value])
  {
    if p < |s| && s[p] == '\n' then
      var q := LineEnd(s, p + 1);
      if q < |s| && IsMarker(s[p + 1..q]) then Some(q) else None
    else None
  }

  /** Every newline, marker, newline is a match. */
  lemma MarkerAtComplete(s: string, p: nat, q: nat)
    requires p < q < |s| && s[p] == '\n' && s[q] == '\n' && IsMarker(s[p + 1..q])
    ensures MarkerAt(s, p) == Some(q)
  {
    MarkerChars(s[p + 1..q]);
    forall j | p + 1 <= j < q ensures s[j] != '\n' {
      assert s[j] == s[p + 1..q][j - p - 1];
    }
    LineEndIs(s, p + 1, q);
  }

  /** The leftmost match at or after `from`: its start and its closing newline. */
  function FindMarker(s: string, from: nat): (r: Option<(nat, nat)>)
    requires from <= |s|
    ensures r.Some? ==> from <= r.value.0 <= |s| && MarkerAt(s, r.value.0) == Some(r.value.1)
    decreases |s| - from
  {
    match MarkerAt(s, from)
    case Some(q) => Some((from, q))
    case None => if from == |s| then None else FindMarker(s, from + 1)
  }

  /** FindMarker misses no earlier match, and finds one whenever there is one. */
  lemma {:induction false} FindMarkerLeftmost(s: string, from: nat)
    requires from <= |s|
    ensures FindMarker(s, from).Some? ==>
              forall p :: from <= p < FindMarker(s, from).value.0 ==> MarkerAt(s, p).None?
    ensures FindMarker(s, from).None? ==> forall p :: from <= p <= |s| ==> MarkerAt(s, p).None?
    decreases |s| - from
  {
    if MarkerAt(s, from).None? && from < |s| {
      FindMarkerLeftmost(s, from + 1);
    }
  }

  /** The inverse of the split: each marker put back on its own line. */
  function Reassemble(parts: seq<string>): string
    requires |parts| % 2 == 1
  {
    if |parts| == 1 then parts[0]
    else parts[0] + "\n" + parts[1] + "\n" + Reassemble(parts[2..])
  }

  /** `re.split` from `from` on: the text up to the next match, the captured
      marker, and so on; scanning resumes after the closing newline, so two
      matches never share a newline. With one capture group the result
      alternates text and marker, so its length is odd and every odd part
      is a marker. */
  function SplitMarkersFrom(s: string, from: nat): (r: seq<string>)
    requires from <= |s|
    ensures |r| % 2 == 1
    ensures forall k :: 0 <= k < |r| / 2 ==> IsMarker(r[2 * k + 1])
    decreases |s| - from
  {
    match FindMarker(s, from)
    case None => [s[from..]]
    case Some((p, q)) =>
      var rest := SplitMarkersFrom(s, q + 1);
      var r := [s[from..p], s[p + 1..q]] + rest;
      assert r[2..] == rest;
      assert |r| / 2 == 1 + |rest| / 2;
      assert forall k :: 0 <= k < |r| / 2 ==> IsMarker(r[2 * k + 1]) by {
        forall k | 1 <= k < |r| / 2 ensures IsMarker(r[2 * k + 1]) {
          assert r[2 * k + 1] == rest[2 * (k - 1) + 1];
        }
      }
      r
  }

  function SplitMarkers(content: string): seq<string> {
    SplitMarkersFrom(content, 0)
  }

  /** A match cuts the text into what precedes it, its marker and what follows. */
  lemma CutAtMatch(s: string, from: nat, p: nat, q: nat)
    requires from <= p < q < |s| && s[p] == '\n' && s[q] == '\n'
    ensures s[from..] == s[from..p] + "\n" + s[p + 1..q] + "\n" + s[q + 1..]
  {
    assert s[from..] == s[from..p] + [s[p]] + s[p + 1..q] + [s[q]] + s[q + 1..];
  }

  /** Putting the markers back on their lines gives the text: the split
      loses nothing. */
  lemma {:induction false} SplitReassembles(s: string, from: nat)
    requires from <= |s|
    ensures Reassemble(SplitMarkersFrom(s, from)) == s[from..]
    decreases |s| - from
  {
    match FindMarker(s, from)
    case None =>
    case Some((p, q)) =>
      var rest := SplitMarkersFrom(s, q + 1);
      SplitReassembles(s, q + 1);
      var r := SplitMarkersFrom(s, from);
      assert r == [s[from..p], s[p + 1..q]] + rest;
      assert r[2..] == rest;
      CutAtMatch(s, from, p, q);
  }

  /** A match inside a slice is a match of the whole text, ending inside
      the slice. */
  lemma MarkerInSlice(s: string, lo: nat, hi: nat, i: nat)
    requires lo <= hi <= |s| && i <= hi - lo && MarkerAt(s[lo..hi], i).Some?
    ensures lo + i < hi && MarkerAt(s, lo + i).Some?
  {
    var b := s[lo..hi];
    var q := MarkerAt(b, i).value;
    assert s[lo + i] == b[i] && s[lo + q] == b[q];
    var m := b[i + 1..q];
    var m2 := s[lo + i + 1..lo + q];
    forall t | 0 <= t < |m| ensures m[t] == m2[t] {
      assert m[t] == b[i + 1 + t];
    }
    assert m == m2;
    MarkerAtComplete(s, lo + i, lo + q);
  }

  /** The split cuts at every match: no text part (the even indices)
      holds a newline, marker, newline of its own. */
  lemma {:induction false} SplitCutsEveryMarker(s: string, from: nat)
    requires from <= |s|
    ensures forall k, i: nat :: 0 <= k <= |SplitMarkersFrom(s, from)| / 2 && i <= |SplitMarkersFrom(s, from)[2 * k]|
              ==> MarkerAt(SplitMarkersFrom(s, from)[2 * k], i).None?
    decreases |s| - from
  {
    var r := SplitMarkersFrom(s, from);
    FindMarkerLeftmost(s, from);
    match FindMarker(s, from)
    case None =>
      assert s[from..] == s[from..|s|];
      forall i: nat | i <= |s| - from && MarkerAt(s[from..], i).Some? ensures false {
        MarkerInSlice(s, from, |s|, i);
      }
    case Some((p, q)) =>
      var rest := SplitMarkersFrom(s, q + 1);
      SplitCutsEveryMarker(s, q + 1);
      assert r == [s[from..p], s[p + 1..q]] + rest;
      forall i: nat | i <= p - from && MarkerAt(s[from..p], i).Some? ensures false {
        MarkerInSlice(s, from, p, i);
      }
      forall k, i: nat | 0 <= k <= |r| / 2 && i <= |r[2 * k]| ensures MarkerAt(r[2 * k], i).None? {
        if k > 0 {
          assert r[2 * k] == rest[2 * (k - 1)];
        }
      }
  }

  /** Scanning resumes right after a match's closing newline, so a line
      that starts where the scan starts is never cut there: the next text
      part begins with it. */
  lemma LineStartNotCut(s: string, from: nat, w: string)
    requires from + |w| <= |s| && s[from..from + |w|] == w && '\n' !in w
    ensures w <= SplitMarkersFrom(s, from)[0]
  {
    forall j | from <= j < from + |w| ensures s[j] != '\n' {
      assert s[j] == w[j - from];
    }
    match FindMarker(s, from)
    case None =>
      assert s[from..][..|w|] == w;
    case Some((p, q)) =>
      assert s[from..p][..|w|] == w;
  }

  /** Two marker lines in a row: the first is cut out, the second is not,
      since the newline between them closes the first match and cannot
      open another. The second marker stays at the head of the first
      marker's text. */
  lemma ConsecutiveMarkers(m1: string, m2: string, rest: string)
    requires IsMarker(m1) && IsMarker(m2)
    ensures var parts := SplitMarkers("\n" + m1 + "\n" + m2 + "\n" + rest);
      |parts| >= 3 && parts[1] == m1 && m2 <= parts[2]
  {
    var s := "\n" + m1 + "\n" + m2 + "\n" + rest;
    var q := |m1| + 1;
    TwoLinesLayout(s, m1, m2, rest);
    MarkerAtComplete(s, 0, q);
    MarkerChars(m2);
    LineStartNotCut(s, q + 1, m2);
    assert SplitMarkersFrom(s, 0) == [s[0..0], s[1..q]] + SplitMarkersFrom(s, q + 1);
  }

  /** Where the pieces of `\n<m1>\n<m2>\n<rest>` sit. */
  lemma TwoLinesLayout(s: string, m1: string, m2: string, rest: string)
    requires s == "\n" + m1 + "\n" + m2 + "\n" + rest
    ensures |s| == |m1| + |m2| + |rest| + 3 && s[0] == '\n' && s[|m1| + 1] == '\n'
    ensures s[1..|m1| + 1] == m1 && s[|m1| + 2..|m1| + 2 + |m2|] == m2
  {
  }

  /** A marker on the first line has no newline before it, so it is not
      cut out: it stays in `parts[0]`, which the loop never stores. */
  lemma FirstLineMarkerKept(m: string, rest: string)
    requires IsMarker(m)
    ensures m <= SplitMarkers(m + "\n" + rest)[0]
  {
    var s := m + "\n" + rest;
    MarkerChars(m);
    assert s[0..|m|] == m;
    LineStartNotCut(s, 0, m);
  }

  /** Text without a match of the pattern comes back whole, and only such text does. */
  lemma SplitWithoutMarker(s: string, from: nat)
    requires from <= |s|
    ensures (forall p :: from <= p <= |s| ==> MarkerAt(s, p).None?)
            <==> SplitMarkersFrom(s, from) == [s[from..]]
  {
    FindMarkerLeftmost(s, from);
    if FindMarker(s, from).Some? {
      var pq := FindMarker(s, from).value;
      assert |SplitMarkersFrom(s, from)| >= 2;
      assert MarkerAt(s, pq.0).Some?;
    }
  }

  // ---------------------------------------------------------------------
  // The loop
  // ---------------------------------------------------------------------

  /** `parts[i+1].strip().replace('\n', ' ')`. */
  function CleanText(t: string): (r: string)
    ensures '\n' !in r
  {
    var r := ReplaceChar(PyStrip(t), '\n', ' ');
    assert forall k :: 0 <= k < |r| ==> r[k] != '\n';
    r
  }

  /** What turn j of the loop stores: the stripped marker `parts[2j+1]`
      and the cleaned text after it. */
  function Pairs(parts: seq<string>): (r: seq<(string, string)>)
    requires |parts| % 2 == 1
    ensures |r| == |parts| / 2
    decreases |parts|
  {
    if |parts| == 1 then []
    else [(PyStrip(parts[1]), CleanText(parts[2]))] + Pairs(parts[2..])
  }

  lemma {:induction false} PairsAt(parts: seq<string>, j: nat)
    requires |parts| % 2 == 1 && j < |parts| / 2
    ensures Pairs(parts)[j] == (PyStrip(parts[2 * j + 1]), CleanText(parts[2 * j + 2]))
    decreases |parts|
  {
    if j > 0 {
      PairsAt(parts[2..], j - 1);
      assert parts[2..][2 * (j - 1) + 1] == parts[2 * j + 1];
      assert parts[2..][2 * (j - 1) + 2] == parts[2 * j + 2];
    }
  }

  /** The key of a turn whose part is a marker is that part itself. */
  lemma PairKey(parts: seq<string>, j: nat)
    requires |parts| % 2 == 1 && j < |parts| / 2 && IsMarker(parts[2 * j + 1])
    ensures Pairs(parts)[j].0 == parts[2 * j + 1]
  {
    PairsAt(parts, j);
    MarkerIsStripped(parts[2 * j + 1]);
  }

  /** The value of a turn has no newline. */
  lemma PairValue(parts: seq<string>, j: nat)
    requires |parts| % 2 == 1 && j < |parts| / 2
    ensures '\n' !in Pairs(parts)[j].1
  {
    PairsAt(parts, j);
  }

  /** A dict filled by assigning the pairs in order, later keys overwriting. */
  function MapOf<K, V>(ps: seq<(K, V)>): map<K, V> {
    if ps == [] then map[]
    else MapOf(ps[..|ps| - 1])[ps[|ps| - 1].0 := ps[|ps| - 1].1]
  }

  /** The keys are exactly the keys of the pairs. */
  lemma {:induction false} MapOfKeys<K, V>(ps: seq<(K, V)>)
    ensures forall key :: key in MapOf(ps) ==> exists j :: 0 <= j < |ps| && ps[j].0 == key
    ensures forall j :: 0 <= j < |ps| ==> ps[j].0 in MapOf(ps)
    decreases |ps|
  {
    if ps != [] {
      var init := ps[..|ps| - 1];
      MapOfKeys(init);
      assert MapOf(ps) == MapOf(init)[ps[|ps| - 1].0 := ps[|ps| - 1].1];
      forall key | key in MapOf(ps) ensures exists j :: 0 <= j < |ps| && ps[j].0 == key {
        if key == ps[|ps| - 1].0 {
          assert ps[|ps| - 1].0 == key;
        } else {
          assert key in MapOf(init);
          var j :| 0 <= j < |init| && init[j].0 == key;
          assert ps[j] == init[j];
        }
      }
      forall j | 0 <= j < |ps| - 1 ensures ps[j].0 in MapOf(ps) {
        assert init[j] == ps[j];
      }
    }
  }

  /** Every stored value is paired with its key somewhere in `ps`. */
  lemma {:induction false} MapOfValues<K, V>(ps: seq<(K, V)>)
    ensures forall key :: key in MapOf(ps) ==> exists j :: 0 <= j < |ps| && ps[j] == (key, MapOf(ps)[key])
    decreases |ps|
  {
    if ps != [] {
      var init := ps[..|ps| - 1];
      MapOfValues(init);
      assert MapOf(ps) == MapOf(init)[ps[|ps| - 1].0 := ps[|ps| - 1].1];
      forall key | key in MapOf(ps) ensures exists j :: 0 <= j < |ps| && ps[j] == (key, MapOf(ps)[key]) {
        if key == ps[|ps| - 1].0 {
          assert ps[|ps| - 1] == (key, MapOf(ps)[key]);
        } else {
          assert key in MapOf(init) && MapOf(ps)[key] == MapOf(init)[key];
          var j :| 0 <= j < |init| && init[j] == (key, MapOf(init)[key]);
          assert ps[j] == init[j];
        }
      }
    }
  }

  /** A key keeps the value of its last pair. */
  lemma {:induction false} MapOfLastWins<K, V>(ps: seq<(K, V)>, j: nat)
    requires j < |ps|
    requires forall i :: j < i < |ps| ==> ps[i].0 != ps[j].0
    ensures ps[j].0 in MapOf(ps) && MapOf(ps)[ps[j].0] == ps[j].1
    decreases |ps|
  {
    if j < |ps| - 1 {
      var init := ps[..|ps| - 1];
      assert init[j] == ps[j];
      forall i | j < i < |init| ensures init[i].0 != init[j].0 {
        assert init[i] == ps[i];
      }
      MapOfLastWins(init, j);
    }
  }

  /** `parse_josephus_text` on the file's content (opening the file is left
      out): walk the odd indices of the split, storing each stripped marker
      with its cleaned text. */
  method ParseJosephusText(content: string) returns (m: map<string, string>)
    ensures m == MapOf(Pairs(SplitMarkers(content)))
    ensures forall key :: key in m ==> '\n' !in m[key]
    ensures forall key :: key in m ==> IsMarker(key)
  {
    var parts := SplitMarkers(content);
    ghost var pairs := Pairs(parts);
    m := map[];
    var i := 1;
    ghost var n := 0;
    while i < |parts|
      invariant i == 2 * n + 1 && i <= |parts|
      invariant m == MapOf(pairs[..n])
    {
      var reference := PyStrip(parts[i]);
      var text := CleanText(parts[i + 1]);
      PairsAt(parts, n);
      assert pairs[..n + 1][..n] == pairs[..n];
      assert pairs[..n + 1][n] == (reference, text);
      m := m[reference := text];
      i := i + 2;
      n := n + 1;
    }
    assert pairs[..n] == pairs;
    JosephusKeys(parts);
    JosephusValues(parts);
  }

  /** Every stored text is on one line. */
  lemma JosephusValues(parts: seq<string>)
    requires |parts| % 2 == 1
    ensures forall key :: key in MapOf(Pairs(parts)) ==> '\n' !in MapOf(Pairs(parts))[key]
  {
    var pairs := Pairs(parts);
    MapOfValues(pairs);
    forall key | key in MapOf(pairs) ensures '\n' !in MapOf(pairs)[key] {
      var j :| 0 <= j < |pairs| && pairs[j] == (key, MapOf(pairs)[key]);
      PairValue(parts, j);
    }
  }

  /** The keys are exactly the marker parts (`strip` leaves a marker alone),
      and each one is a marker. */
  lemma JosephusKeys(parts: seq<string>)
    requires |parts| % 2 == 1
    requires forall k :: 0 <= k < |parts| / 2 ==> IsMarker(parts[2 * k + 1])
    ensures forall key :: key in MapOf(Pairs(parts)) ==>
      exists j :: 0 <= j < |parts| / 2 && parts[2 * j + 1] == key
    ensures forall j :: 0 <= j < |parts| / 2 ==> parts[2 * j + 1] in MapOf(Pairs(parts))
    ensures forall key :: key in MapOf(Pairs(parts)) ==> IsMarker(key)
  {
    var pairs := Pairs(parts);
    MapOfKeys(pairs);
    forall key | key in MapOf(pairs)
      ensures (exists j :: 0 <= j < |parts| / 2 && parts[2 * j + 1] == key) && IsMarker(key)
    {
      var j :| 0 <= j < |pairs| && pairs[j].0 == key;
      PairKey(parts, j);
    }
    forall j | 0 <= j < |pairs| ensures parts[2 * j + 1] in MapOf(pairs) {
      PairKey(parts, j);
    }
  }

  /** A marker keeps the cleaned text after its last occurrence among the
      cut-out parts, up to the next one. The text before the first marker (`parts[0]`) is
      never stored. */
  lemma JosephusLastWins(parts: seq<string>, j: nat)
    requires |parts| % 2 == 1
    requires forall k :: 0 <= k < |parts| / 2 ==> IsMarker(parts[2 * k + 1])
    requires j < |parts| / 2
    requires forall i :: j < i < |parts| / 2 ==> parts[2 * i + 1] != parts[2 * j + 1]
    ensures parts[2 * j + 1] in MapOf(Pairs(parts))
    ensures MapOf(Pairs(parts))[parts[2 * j + 1]] == CleanText(parts[2 * j + 2])
  {
    var pairs := Pairs(parts);
    forall i | 0 <= i < |pairs| ensures pairs[i].0 == parts[2 * i + 1] {
      PairKey(parts, i);
    }
    MapOfLastWins(pairs, j);
    PairsAt(parts, j);
  }
}
