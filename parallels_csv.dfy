/**
  `parse_parallels_csv` in process_data.py: the table of parallels between
  Luke and Josephus, one row per line, read into a two-level dict from Luke
  chapter and verse to the Josephus references of that verse.
 */
module ParallelsCsv {
  import opened Wrappers
  import opened Strings
  import opened Seqs

  /** `defaultdict(lambda: defaultdict(list))` as filled by the parser:
      chapter, then verse, then the references in order of first appearance. */
  type Parallels = map<int, map<int, seq<string>>>

  /** One usable line of the table: where in Luke, and the reference
      (`Wars 2.9.1`, `Antiquities 18.2.1`) to append there. */
  datatype Row = Row(chapter: int, verse: int, ref: string)

  // ---------------------------------------------------------------------
  // One line
  // ---------------------------------------------------------------------

  /** `line.strip().replace('"', '')`. */
  function CleanLine(line: string): (r: string)
    ensures '"' !in r
  {
    RemoveChar(PyStrip(line), '"')
  }

  /** The name of the work: a numeric first column means the Jewish War. */
  function SourceName(sourceRefNum: string): (r: string)
    ensures r == "Wars" <==> IsDigitString(sourceRefNum)
    ensures r == "Wars" || r == "Antiquities"
  {
    if IsDigitString(sourceRefNum) then "Wars" else "Antiquities"
  }

  /** `map(int, luke_loc.split(':'))` unpacked into two names: exactly two
      pieces, each one an integer literal; otherwise ValueError (None). */
  function ParseLukeLoc(loc: string): Option<(int, int)> {
    var pieces := SplitOn(loc, ':');
    if |pieces| != 2 then None
    else
      match (PyInt(pieces[0]), PyInt(pieces[1]))
      case (Some(c), Some(v)) => Some((c, v))
      case _ => None
  }

  /** The body of the loop for the columns of one line: None when the line
      is skipped (fewer than five columns, or a Luke location that does not
      parse). */
  function RowOf(parts: seq<string>): Option<Row> {
    if |parts| < 5 then None
    else
      match ParseLukeLoc(parts[4])
      case None => None
      case Some((c, v)) => Some(Row(c, v, SourceName(parts[0]) + " " + parts[1]))
  }

  /** The body of the loop for one line. A line that is empty after cleaning
      has no columns, so the `if not cleaned_line` test needs no case of
      its own. */
  function ParseRow(line: string): Option<Row> {
    RowOf(Words(CleanLine(line)))
  }

  /** Exactly the lines with five columns and a readable Luke location
      give a row. */
  lemma ParseRowSome(line: string)
    ensures ParseRow(line).Some? <==>
      (|Words(CleanLine(line))| >= 5 && ParseLukeLoc(Words(CleanLine(line))[4]).Some?)
  {
  }

  /** Of a row's columns: the reference is two words, the work's name and
      the second column, so the later `ref_str.split()` takes it apart
      again; the Luke location is the fifth column's. */
  lemma RowOfRef(parts: seq<string>)
    requires RowOf(parts).Some?
    requires forall w :: w in parts ==> w != [] && NoSpace(w)
    ensures RowOf(parts).value.ref == SourceName(parts[0]) + " " + parts[1]
    ensures Words(RowOf(parts).value.ref) == [SourceName(parts[0]), parts[1]]
    ensures ParseLukeLoc(parts[4]) == Some((RowOf(parts).value.chapter, RowOf(parts).value.verse))
  {
    var name := SourceName(parts[0]);
    assert parts[1] in parts;
    assert NoSpace(name);
    WordsOfTwo(name, parts[1]);
  }

  /** The same for a line: its reference is the work's name, which is
      "Wars" exactly when the first column is numeric, a space and the
      second column, and it splits back into those two. */
  lemma RowRef(line: string)
    requires ParseRow(line).Some?
    ensures ParseRow(line).value.ref ==
      SourceName(Words(CleanLine(line))[0]) + " " + Words(CleanLine(line))[1]
    ensures Words(ParseRow(line).value.ref) ==
      [SourceName(Words(CleanLine(line))[0]), Words(CleanLine(line))[1]]
    ensures ParseLukeLoc(Words(CleanLine(line))[4]) ==
      Some((ParseRow(line).value.chapter, ParseRow(line).value.verse))
  {
    RowOfRef(Words(CleanLine(line)));
  }

  /** A Luke location printed as `chapter:verse` reads back. */
  lemma ParseLukeLocRoundTrip(c: int, v: int)
    ensures ParseLukeLoc(IntToString(c) + ":" + IntToString(v)) == Some((c, v))
  {
    var a := IntToString(c);
    var b := IntToString(v);
    NoColon(c);
    NoColon(v);
    assert Join([a, b], ':') == a + ":" + b;
    SplitOnJoin([a, b], ':');
    PyIntOfString(c);
    PyIntOfString(v);
  }

  lemma NoColon(n: int)
    ensures ':' !in IntToString(n)
  {
    var d := if n < 0 then NatToString(-n) else NatToString(n);
    forall k | 0 <= k < |d| ensures d[k] != ':' {
      assert IsAsciiDigit(d[k]);
    }
    if n < 0 {
      assert IntToString(n) == "-" + d;
    }
  }

  // ---------------------------------------------------------------------
  // The dict
  // ---------------------------------------------------------------------

  /** The list at `parallels[c][v]`, empty where the key is missing. */
  function Lookup(p: Parallels, c: int, v: int): seq<string> {
    if c in p && v in p[c] then p[c][v] else []
  }

  predicate Present(p: Parallels, c: int, v: int) {
    c in p && v in p[c]
  }

  /** `if full_ref not in parallels[c][v]: parallels[c][v].append(full_ref)`;
      reading through the defaultdicts creates the entries either way. */
  function AddRef(p: Parallels, row: Row): Parallels {
    var refs := Lookup(p, row.chapter, row.verse);
    var verses := if row.chapter in p then p[row.chapter] else map[];
    p[row.chapter := verses[row.verse := if row.ref in refs then refs else refs + [row.ref]]]
  }

  /** AddRef touches the list of the row's verse only, creating it if need
      be, and appends the reference there unless it is already present. */
  lemma AddRefAt(p: Parallels, row: Row, c: int, v: int)
    ensures Lookup(AddRef(p, row), c, v) ==
      if c == row.chapter && v == row.verse then
        (if row.ref in Lookup(p, c, v) then Lookup(p, c, v) else Lookup(p, c, v) + [row.ref])
      else Lookup(p, c, v)
    ensures Present(AddRef(p, row), c, v) <==> Present(p, c, v) || (c == row.chapter && v == row.verse)
  {
  }

  /** The rows of the given lines, in order, each line parsed or skipped. */
  function Rows(lines: seq<string>): seq<Row> {
    FilterMap(ParseRow, lines, |lines|)
  }

  /** The dict after adding the rows in order. */
  function ParallelsOf(rows: seq<Row>): Parallels {
    if rows == [] then map[] else AddRef(ParallelsOf(rows[..|rows| - 1]), rows[|rows| - 1])
  }

  /** Adding one more row is one more AddRef. */
  lemma ParallelsOfSnoc(rows: seq<Row>, row: Row)
    ensures ParallelsOf(rows + [row]) == AddRef(ParallelsOf(rows), row)
  {
    assert (rows + [row])[..|rows|] == rows;
  }

  /** The result of the parser: the dict, or the StopIteration that
      `next(f)` raises on an empty file, which nothing catches. */
  datatype CsvParse = StopIteration | Parsed(parallels: Parallels)

  /** `parse_parallels_csv` on the lines of the file (opening and reading
      it are left out): skip the header, then add the row of every usable
      line. */
  method ParseParallelsCsv(lines: seq<string>) returns (r: CsvParse)
    ensures lines == [] <==> r == StopIteration
    ensures lines != [] ==> r == Parsed(ParallelsOf(Rows(lines[1..])))
  {
    if |lines| == 0 {
      return StopIteration;
    }
    ghost var body := lines[1..];
    var parallels: Parallels := map[];
    var i := 1;
    while i < |lines|
      invariant 1 <= i <= |lines|
      invariant parallels == ParallelsOf(FilterMap(ParseRow, body, i - 1))
    {
      assert body[i - 1] == lines[i];
      var parsed := ParseRow(lines[i]);
      ghost var rows := FilterMap(ParseRow, body, i - 1);
      FilterMapStep(ParseRow, body, i - 1);
      if parsed.Some? {
        var row := parsed.value;
        ghost var prev := parallels;
        var refs := Lookup(parallels, row.chapter, row.verse);
        if row.ref !in refs {
          refs := refs + [row.ref];
        }
        var verses := if row.chapter in parallels then parallels[row.chapter] else map[];
        parallels := parallels[row.chapter := verses[row.verse := refs]];
        assert parallels == AddRef(prev, row);
        ParallelsOfSnoc(rows, row);
      }
      i := i + 1;
    }
    r := Parsed(parallels);
  }

  // ---------------------------------------------------------------------
  // What the dict holds
  // ---------------------------------------------------------------------

  /** The references of the rows at `(c, v)`, in order, repeats kept. */
  function RefsAt(rows: seq<Row>, c: int, v: int): (r: seq<string>)
    ensures |r| <= |rows|
  {
    if rows == [] then []
    else
      var last := rows[|rows| - 1];
      RefsAt(rows[..|rows| - 1], c, v) + (if last.chapter == c && last.verse == v then [last.ref] else [])
  }

  /** A list with every repeat after the first occurrence dropped. */
  function Dedup(s: seq<string>): seq<string> {
    if s == [] then []
    else
      var d := Dedup(s[..|s| - 1]);
      if s[|s| - 1] in d then d else d + [s[|s| - 1]]
  }

  /** Dedup keeps exactly the elements, each once (DedupPrefix gives the order). */
  lemma {:induction false} DedupProps(s: seq<string>)
    ensures forall x :: x in Dedup(s) ==> x in s
    ensures forall x :: x in s ==> x in Dedup(s)
    ensures forall i, j :: 0 <= i < j < |Dedup(s)| ==> Dedup(s)[i] != Dedup(s)[j]
    ensures s != [] ==> Dedup(s) != []
    decreases |s|
  {
    if s != [] {
      var init := s[..|s| - 1];
      DedupProps(init);
      assert s == init + [s[|s| - 1]];
    }
  }

  /** Dedup of a prefix is a prefix of Dedup: an element is kept at its
      first occurrence and later elements only ever go after it, so the
      order is that of first occurrence. */
  lemma {:induction false} DedupPrefix(s: seq<string>, k: nat)
    requires k <= |s|
    ensures Dedup(s[..k]) <= Dedup(s)
    decreases |s| - k
  {
    if k < |s| {
      DedupPrefix(s, k + 1);
      var t := s[..k + 1];
      assert t[..|t| - 1] == s[..k];
    } else {
      assert s[..k] == s;
    }
  }

  /** The dict is the reference definition: at each chapter and verse, the
      references of the rows there, first occurrences only and in order;
      an entry exists exactly where some row points. */
  lemma {:induction false} ParallelsOfIsDedup(rows: seq<Row>, c: int, v: int)
    ensures Lookup(ParallelsOf(rows), c, v) == Dedup(RefsAt(rows, c, v))
    ensures Present(ParallelsOf(rows), c, v) <==> RefsAt(rows, c, v) != []
    decreases |rows|
  {
    if rows != [] {
      var init := rows[..|rows| - 1];
      var last := rows[|rows| - 1];
      ParallelsOfIsDedup(init, c, v);
      AddRefAt(ParallelsOf(init), last, c, v);
      if last.chapter == c && last.verse == v {
        var s := RefsAt(rows, c, v);
        assert s[..|s| - 1] == RefsAt(init, c, v);
      } else {
        assert RefsAt(rows, c, v) == RefsAt(init, c, v);
      }
    }
  }

  /** What the parser promises its caller: every list is present only where
      it is nonempty, holds no reference twice, and holds exactly the
      references of the rows at that verse. */
  lemma ParallelsShape(rows: seq<Row>, c: int, v: int)
    requires Present(ParallelsOf(rows), c, v)
    ensures ParallelsOf(rows)[c][v] != []
    ensures forall i, j :: 0 <= i < j < |ParallelsOf(rows)[c][v]| ==>
              ParallelsOf(rows)[c][v][i] != ParallelsOf(rows)[c][v][j]
    ensures forall x :: x in ParallelsOf(rows)[c][v] ==>
              exists k :: 0 <= k < |rows| && rows[k] == Row(c, v, x)
    ensures forall k :: 0 <= k < |rows| && rows[k].chapter == c && rows[k].verse == v ==>
              rows[k].ref in ParallelsOf(rows)[c][v]
  {
    ParallelsOfIsDedup(rows, c, v);
    DedupProps(RefsAt(rows, c, v));
    RefsAtMembers(rows, c, v);
  }

  /** A reference is among the rows' references at `(c, v)` exactly when a
      row says so. */
  lemma {:induction false} RefsAtMembers(rows: seq<Row>, c: int, v: int)
    ensures forall x :: x in RefsAt(rows, c, v) ==> exists k :: 0 <= k < |rows| && rows[k] == Row(c, v, x)
    ensures forall k :: 0 <= k < |rows| && rows[k].chapter == c && rows[k].verse == v ==>
              rows[k].ref in RefsAt(rows, c, v)
    decreases |rows|
  {
    if rows != [] {
      var init := rows[..|rows| - 1];
      RefsAtMembers(init, c, v);
      forall x | x in RefsAt(rows, c, v) ensures exists k :: 0 <= k < |rows| && rows[k] == Row(c, v, x) {
        if x in RefsAt(init, c, v) {
          var k :| 0 <= k < |init| && init[k] == Row(c, v, x);
          assert rows[k] == init[k];
        } else {
          assert rows[|rows| - 1] == Row(c, v, x);
        }
      }
      forall k | 0 <= k < |rows| && rows[k].chapter == c && rows[k].verse == v
        ensures rows[k].ref in RefsAt(rows, c, v)
      {
        if k < |rows| - 1 {
          assert init[k] == rows[k];
        }
      }
    }
  }

  /** The parser end to end: after the header, a reference is listed at a
      chapter and verse only when some line of the table gives that row ... */
  lemma CsvListsOnlyRows(lines: seq<string>, c: int, v: int, x: string)
    requires lines != [] && x in Lookup(ParallelsOf(Rows(lines[1..])), c, v)
    ensures exists j :: 1 <= j < |lines| && ParseRow(lines[j]) == Some(Row(c, v, x))
  {
    var body := lines[1..];
    var rows := Rows(body);
    ParallelsOfIsDedup(rows, c, v);
    DedupProps(RefsAt(rows, c, v));
    RefsAtMembers(rows, c, v);
    FilterMapMembers(ParseRow, body, |body|);
    var k :| 0 <= k < |rows| && rows[k] == Row(c, v, x);
    assert rows[k] in rows;
    var j :| 0 <= j < |body| && ParseRow(body[j]) == Some(rows[k]);
    assert body[j] == lines[j + 1];
  }

  /** ... and every such line gets its reference listed. */
  lemma CsvListsAllRows(lines: seq<string>, j: nat)
    requires 1 <= j < |lines| && ParseRow(lines[j]).Some?
    ensures ParseRow(lines[j]).value.ref in
      Lookup(ParallelsOf(Rows(lines[1..])), ParseRow(lines[j]).value.chapter, ParseRow(lines[j]).value.verse)
  {
    var body := lines[1..];
    var rows := Rows(body);
    var row := ParseRow(lines[j]).value;
    assert body[j - 1] == lines[j];
    FilterMapMembers(ParseRow, body, |body|);
    var k :| 0 <= k < |rows| && rows[k] == row;
    ParallelsOfIsDedup(rows, row.chapter, row.verse);
    DedupProps(RefsAt(rows, row.chapter, row.verse));
    RefsAtMembers(rows, row.chapter, row.verse);
  }
}
