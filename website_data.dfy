/**
  The last step of process_data.py: the combine loop that turns the Luke
  parallels into website entries, keeping only Wars references whose book
  has a Roman numeral, and the stringification of the keys that gives the
  JSON read by script.js. Also the whole script as one run.
 */
module WebsiteData {
  import opened Wrappers
  import opened Strings
  import opened ParallelsJson
  import opened ParallelsCsv
  import opened Seqs
  import opened JosephusText

  /** The reference → text map of `parse_josephus_text`. */
  type Josephus = map<string, string>

  /** `final_data_for_website`: integer chapter → integer verse → entries. */
  type WebData = map<int, map<int, seq<Entry>>>

  /** The default of the text lookup. */
  const NotFound := "Text for this reference was not found."

  /** `ROMAN_MAP.get(n)`. */
  function RomanNumeral(n: int): (r: Option<string>)
    ensures r.Some? <==> 1 <= n <= 7
  {
    if n == 1 then Some("I")
    else if n == 2 then Some("II")
    else if n == 3 then Some("III")
    else if n == 4 then Some("IV")
    else if n == 5 then Some("V")
    else if n == 6 then Some("VI")
    else if n == 7 then Some("VII")
    else None
  }

  /** The numerals are distinct, nonempty, made of marker characters and
      free of dots, so a key built from one splits back at its dots. */
  lemma RomanNumerals(a: int, b: int)
    requires RomanNumeral(a).Some? && RomanNumeral(b).Some?
    ensures RomanNumeral(a).value != [] && '.' !in RomanNumeral(a).value
    ensures forall k :: 0 <= k < |RomanNumeral(a).value| ==> IsRefChar(RomanNumeral(a).value[k])
    ensures RomanNumeral(a) == RomanNumeral(b) ==> a == b
  {
  }

  /** The key looked up in the Josephus map. */
  function LookupKey(roman: string, chap: string, para: string): string {
    roman + "." + chap + "." + para
  }

  /** A key with a numeral and two digit runs has the shape of a Josephus
      reference marker, so it can be found in the map. */
  lemma LookupKeyIsMarker(book: int, chap: string, para: string)
    requires RomanNumeral(book).Some?
    requires IsDigitString(chap) && IsDigitString(para)
    ensures IsMarker(LookupKey(RomanNumeral(book).value, chap, para))
  {
    var roman := RomanNumeral(book).value;
    RomanNumerals(book, book);
    var t := LookupKey(roman, chap, para);
    var a := |roman|;
    var b := |roman| + 1 + |chap|;
    assert t == roman + ['.'] + chap + ['.'] + para;
    assert forall j :: 0 <= j < a ==> t[j] == roman[j];
    assert forall j :: a < j < b ==> t[j] == chap[j - a - 1];
    assert forall j :: b < j < |t| ==> t[j] == para[j - b - 1];
    assert MarkerShape(t, a, b);
    MarkerShapeIff(t);
  }

  /** `parts[1]` exists: a reference without a second word raises
      IndexError, which nothing catches. */
  predicate Splits(ref: string) {
    |Words(ref)| >= 2
  }

  /** The body of the innermost loop for one reference: the entry it
      appends, or None when it appends nothing (not Wars, not three parts,
      ValueError from `int(book)`, or a book without a numeral). A
      reference without a second word gives None here; the loop raises
      IndexError before that matters. */
  function EntryOf(j: Josephus, ref: string): (r: Option<Entry>)
    ensures r.Some? ==> r.value.ref == ref
  {
    var parts := Words(ref);
    if |parts| < 2 then None
    else
      var locParts := SplitOn(parts[1], '.');
      if parts[0] == "Wars" && |locParts| == 3 then
        match PyInt(locParts[0])
        case None => None
        case Some(book) =>
          match RomanNumeral(book)
          case None => None
          case Some(roman) =>
            var key := LookupKey(roman, locParts[1], locParts[2]);
            Some(Entry(ref, if key in j then j[key] else NotFound))
      else None
  }

  /** A reference gives an entry exactly when its first word is `Wars`,
      its second word has three dot-separated parts, and the first part
      reads as a book number from 1 to 7; the entry then carries the text
      at that key, or the not-found text. */
  lemma EntryOfCases(j: Josephus, ref: string)
    ensures EntryOf(j, ref).Some? <==>
      var parts := Words(ref);
      |parts| >= 2 && parts[0] == "Wars" && |SplitOn(parts[1], '.')| == 3 &&
      PyInt(SplitOn(parts[1], '.')[0]).Some? && 1 <= PyInt(SplitOn(parts[1], '.')[0]).value <= 7
    ensures EntryOf(j, ref).Some? ==>
      var loc := SplitOn(Words(ref)[1], '.');
      var key := LookupKey(RomanNumeral(PyInt(loc[0]).value).value, loc[1], loc[2]);
      EntryOf(j, ref).value == Entry(ref, if key in j then j[key] else NotFound)
  {
  }

  /** EntryOf as a value, for FilterMap. */
  function EntryFn(j: Josephus): string -> Option<Entry> {
    ref => EntryOf(j, ref)
  }

  /** A string of digits has no whitespace and no dot. */
  lemma DigitsAreWord(s: string)
    requires IsDigitString(s)
    ensures s != [] && NoSpace(s) && '.' !in s
  {
    forall k | 0 <= k < |s| ensures !IsPySpace(s[k]) && s[k] != '.' {
      assert IsAsciiDigit(s[k]);
    }
  }

  /** Two words glued together are one word. */
  lemma NoSpaceAppend(a: string, b: string)
    requires NoSpace(a) && NoSpace(b)
    ensures NoSpace(a + b)
  {
    forall k | 0 <= k < |a + b| ensures !IsPySpace((a + b)[k]) {
      if k < |a| { assert (a + b)[k] == a[k]; } else { assert (a + b)[k] == b[k - |a|]; }
    }
  }

  /** Joining three parts with dots. */
  lemma JoinThree(a: string, b: string, c: string)
    ensures Join([a, b, c], '.') == a + "." + b + "." + c
  {
    assert [a, b, c][1..] == [b, c];
    assert [b, c][1..] == [c];
    assert Join([c], '.') == c;
    assert Join([b, c], '.') == b + "." + c;
    AppendAssoc(a + ".", b, "." + c);
    AppendAssoc(a + "." + b, ".", c);
  }

  /** Three dot-free words joined by dots make one word that splits back
      into them. */
  lemma DottedWord(book: string, chap: string, para: string)
    requires NoSpace(book) && '.' !in book
    requires NoSpace(chap) && '.' !in chap
    requires NoSpace(para) && '.' !in para
    ensures book + "." + chap + "." + para != []
    ensures NoSpace(book + "." + chap + "." + para)
    ensures SplitOn(book + "." + chap + "." + para, '.') == [book, chap, para]
  {
    assert NoSpace(".") by { assert !IsPySpace('.'); }
    NoSpaceAppend(book, ".");
    NoSpaceAppend(book + ".", chap);
    NoSpaceAppend(book + "." + chap, ".");
    NoSpaceAppend(book + "." + chap + ".", para);
    JoinThree(book, chap, para);
    SplitOnJoin([book, chap, para], '.');
  }

  /** How the combine loop takes a Wars reference with book n apart. */
  lemma WarsRefParts(n: nat, chap: string, para: string)
    requires NoSpace(chap) && '.' !in chap
    requires NoSpace(para) && '.' !in para
    ensures Words("Wars " + (NatToString(n) + "." + chap + "." + para)) ==
      ["Wars", NatToString(n) + "." + chap + "." + para]
    ensures SplitOn(NatToString(n) + "." + chap + "." + para, '.') == [NatToString(n), chap, para]
    ensures PyInt(NatToString(n)) == Some(n)
  {
    var book := NatToString(n);
    var loc := book + "." + chap + "." + para;
    DigitsAreWord(book);
    DottedWord(book, chap, para);
    WordsOfTwo("Wars", loc);
    assert "Wars" + " " == "Wars ";
    PyIntOfString(n);
  }

  /** A Wars reference with book n: it gets an entry exactly when n is 1..7,
      and the entry's text is the Josephus text at the Roman key, or the
      default when there is none. */
  lemma WarsEntry(j: Josephus, n: nat, chap: string, para: string)
    requires NoSpace(chap) && '.' !in chap
    requires NoSpace(para) && '.' !in para
    ensures Splits("Wars " + (NatToString(n) + "." + chap + "." + para))
    ensures EntryOf(j, "Wars " + (NatToString(n) + "." + chap + "." + para)).Some? <==> 1 <= n <= 7
    ensures 1 <= n <= 7 ==>
      var key := LookupKey(RomanNumeral(n).value, chap, para);
      EntryOf(j, "Wars " + (NatToString(n) + "." + chap + "." + para)).value.text ==
        if key in j then j[key] else NotFound
  {
    WarsRefParts(n, chap, para);
  }

  /** A Wars reference `Wars <loc>`: it gets an entry exactly when the
      location has three dot-separated parts and the first reads as a book
      1..7 (leading zeros, signs and surrounding whitespace as `int()`
      allows), and the entry holds the reference and the Josephus text at
      the Roman key, or the default. */
  lemma WarsLocEntry(j: Josephus, loc: string)
    requires loc != [] && NoSpace(loc)
    ensures Splits("Wars " + loc)
    ensures EntryOf(j, "Wars " + loc).Some? <==>
      |SplitOn(loc, '.')| == 3 && PyInt(SplitOn(loc, '.')[0]).Some? && 1 <= PyInt(SplitOn(loc, '.')[0]).value <= 7
    ensures EntryOf(j, "Wars " + loc).Some? ==>
      var key := LookupKey(RomanNumeral(PyInt(SplitOn(loc, '.')[0]).value).value, SplitOn(loc, '.')[1], SplitOn(loc, '.')[2]);
      EntryOf(j, "Wars " + loc).value == Entry("Wars " + loc, if key in j then j[key] else NotFound)
  {
    assert "Wars" + " " == "Wars ";
    WordsOfTwo("Wars", loc);
  }

  /** A leading zero does not change the value of a digit string. */
  lemma {:induction false} LeadingZeroValue(d: string)
    requires IsDigitString(d)
    ensures IsDigitString("0" + d) && DigitsValue("0" + d) == DigitsValue(d)
    decreases |d|
  {
    var t := "0" + d;
    assert t[..|t| - 1] == "0" + d[..|d| - 1];
    assert t[|t| - 1] == d[|d| - 1];
    if |d| == 1 {
      assert "0"[..0] == [];
      assert d[..0] == [];
    } else {
      LeadingZeroValue(d[..|d| - 1]);
    }
  }

  /** A book written with a leading zero (`Wars 02.1.1`) is read by `int()`
      as the same book, so it is looked up under the same Roman key. */
  lemma WarsBookLeadingZero(j: Josephus, n: nat, chap: string, para: string)
    requires 1 <= n <= 7
    requires NoSpace(chap) && '.' !in chap
    requires NoSpace(para) && '.' !in para
    ensures var ref := "Wars " + (("0" + NatToString(n)) + "." + chap + "." + para);
      var key := LookupKey(RomanNumeral(n).value, chap, para);
      EntryOf(j, ref) == Some(Entry(ref, if key in j then j[key] else NotFound))
  {
    var book := "0" + NatToString(n);
    LeadingZeroValue(NatToString(n));
    DigitsAreWord(book);
    DottedWord(book, chap, para);
    assert book[0] == '0' && IsAsciiDigit(book[|book| - 1]);
    PyStripOfStripped(book);
    DigitsRead(book);
    WarsLocEntry(j, book + "." + chap + "." + para);
  }

  /** An Antiquities reference never gets an entry. */
  lemma AntiquitiesSkipped(j: Josephus, loc: string)
    requires loc != [] && NoSpace(loc)
    ensures Splits("Antiquities " + loc) && EntryOf(j, "Antiquities " + loc) == None
  {
    assert "Antiquities" + " " == "Antiquities ";
    WordsOfTwo("Antiquities", loc);
  }

  /** The entries of the first n references, in order. */
  function Entries(j: Josephus, refs: seq<string>, n: nat): seq<Entry>
    requires n <= |refs|
  {
    FilterMap(EntryFn(j), refs, n)
  }

  /** Every reference of a list splits. */
  predicate RefsSplit(refs: seq<string>) {
    forall k :: 0 <= k < |refs| ==> Splits(refs[k])
  }

  /** Every reference of every verse splits. */
  predicate VersesSplit(vs: map<int, seq<string>>) {
    forall v :: v in vs ==> RefsSplit(vs[v])
  }

  /** Every reference of the parallels splits: the loop raises no IndexError. */
  predicate AllSplit(p: Parallels) {
    forall c :: c in p ==> VersesSplit(p[c])
  }

  /** The entries of a whole list of references. */
  function VerseEntries(j: Josephus, refs: seq<string>): seq<Entry> {
    Entries(j, refs, |refs|)
  }

  /** The verses of `vs` among `done` that got at least one entry. */
  function VerseDataOn(j: Josephus, vs: map<int, seq<string>>, done: set<int>): map<int, seq<Entry>> {
    map v | v in done && v in vs && VerseEntries(j, vs[v]) != [] :: VerseEntries(j, vs[v])
  }

  /** The verses of one chapter that got at least one entry: the ones
      `final_data_for_website[chapter]` holds. */
  function VerseData(j: Josephus, vs: map<int, seq<string>>): map<int, seq<Entry>> {
    VerseDataOn(j, vs, vs.Keys)
  }

  /** The chapters of `p` among `done` with at least one verse that got an entry. */
  function WebDataOn(j: Josephus, p: Parallels, done: set<int>): WebData {
    map c | c in done && c in p && VerseData(j, p[c]) != map[] :: VerseData(j, p[c])
  }

  /** `final_data_for_website` once the loop has run to the end. */
  function WebDataOf(j: Josephus, p: Parallels): WebData {
    WebDataOn(j, p, p.Keys)
  }

  /** The combine step: nothing when either input is empty, IndexError when
      some reference has no second word, the data otherwise. */
  datatype Combined = IndexError | Built(data: WebData)

  function Combine(j: Josephus, p: Parallels): Combined {
    if |j| == 0 || |p| == 0 then Built(map[])
    else if !AllSplit(p) then IndexError
    else Built(WebDataOf(j, p))
  }

  /** One more verse done. */
  lemma VerseDataOnAdd(j: Josephus, vs: map<int, seq<string>>, done: set<int>, v: int)
    requires v in vs
    ensures VerseEntries(j, vs[v]) == [] ==>
      VerseDataOn(j, vs, done + {v}) == VerseDataOn(j, vs, done)
    ensures VerseEntries(j, vs[v]) != [] ==>
      VerseDataOn(j, vs, done + {v}) == VerseDataOn(j, vs, done)[v := VerseEntries(j, vs[v])]
  {
  }

  /** One more chapter done. */
  lemma WebDataOnAdd(j: Josephus, p: Parallels, done: set<int>, c: int)
    requires c in p
    ensures VerseData(j, p[c]) == map[] ==> WebDataOn(j, p, done + {c}) == WebDataOn(j, p, done)
    ensures VerseData(j, p[c]) != map[] ==>
      WebDataOn(j, p, done + {c}) == WebDataOn(j, p, done)[c := VerseData(j, p[c])]
  {
  }

  /** The entries of one verse, appended reference by reference in list
      order; `raised` when a reference has no second word. */
  method VerseLoop(j: Josephus, refs: seq<string>) returns (entries: seq<Entry>, raised: bool)
    ensures raised <==> !RefsSplit(refs)
    ensures !raised ==> entries == VerseEntries(j, refs)
  {
    entries := [];
    var i := 0;
    while i < |refs|
      invariant 0 <= i <= |refs|
      invariant forall k :: 0 <= k < i ==> Splits(refs[k])
      invariant entries == Entries(j, refs, i)
    {
      var parts := Words(refs[i]);
      if |parts| < 2 {
        return entries, true;
      }
      var e := EntryOf(j, refs[i]);
      FilterMapStep(EntryFn(j), refs, i);
      if e.Some? {
        entries := entries + [e.value];
      }
      i := i + 1;
    }
    raised := false;
  }

  /** A nonempty set has an element. */
  lemma HasMember(s: set<int>)
    requires s != {}
    ensures exists x :: x in s
  {
    if forall x :: x !in s {
      assert false;
    }
  }

  /** Some element of a nonempty set: the next key a dict iteration yields. */
  method Member(s: set<int>) returns (x: int)
    requires s != {}
    ensures x in s
  {
    HasMember(s);
    x :| x in s;
  }

  /** The verse loop for one chapter: the verses with at least one entry,
      in whatever order the dict gives them; each verse's entries are
      written once its references are done, and only when there is one,
      as the defaultdict creates the key on the first append. */
  method ChapterLoop(j: Josephus, verses: map<int, seq<string>>)
    returns (outC: map<int, seq<Entry>>, raised: bool)
    ensures raised <==> !VersesSplit(verses)
    ensures !raised ==> outC == VerseData(j, verses)
  {
    outC := map[];
    var verseKeys := verses.Keys;
    ghost var doneV: set<int> := {};
    while verseKeys != {}
      invariant verseKeys + doneV == verses.Keys && verseKeys !! doneV
      invariant forall v :: v in doneV ==> RefsSplit(verses[v])
      invariant outC == VerseDataOn(j, verses, doneV)
      decreases |verseKeys|
    {
      var v := Member(verseKeys);
      var entries, raisedV := VerseLoop(j, verses[v]);
      if raisedV {
        return outC, true;
      }
      VerseDataOnAdd(j, verses, doneV, v);
      if entries != [] {
        outC := outC[v := entries];
      }
      verseKeys := verseKeys - {v};
      doneV := doneV + {v};
    }
    assert doneV == verses.Keys;
    raised := false;
  }

  /** The combine loop of process_data.py over the chapters of the
      parallels, in whatever order the dict gives them; nothing is done
      unless both inputs are nonempty. */
  method BuildWebsiteData(j: Josephus, p: Parallels) returns (r: Combined)
    ensures r == Combine(j, p)
  {
    var out: WebData := map[];
    if |j| == 0 || |p| == 0 {
      return Built(out);
    }
    var chapters := p.Keys;
    ghost var doneC: set<int> := {};
    while chapters != {}
      invariant chapters + doneC == p.Keys && chapters !! doneC
      invariant forall c :: c in doneC ==> VersesSplit(p[c])
      invariant out == WebDataOn(j, p, doneC)
      decreases |chapters|
    {
      var c := Member(chapters);
      var outC, raised := ChapterLoop(j, p[c]);
      if raised {
        return IndexError;
      }
      WebDataOnAdd(j, p, doneC, c);
      if outC != map[] {
        out := out[c := outC];
      }
      chapters := chapters - {c};
      doneC := doneC + {c};
    }
    assert doneC == p.Keys;
    r := Built(out);
  }

  // ---------------------------------------------------------------------
  // What the combined data holds
  // ---------------------------------------------------------------------

  /** The entries of a verse come from its references in order: entry a
      is the entry of reference idx[a], the indices increase, and every
      reference that gets an entry has its place among them. */
  lemma VerseEntriesInOrder(j: Josephus, refs: seq<string>) returns (idx: seq<nat>)
    ensures |idx| == |VerseEntries(j, refs)|
    ensures forall a :: 0 <= a < |idx| ==>
      idx[a] < |refs| && EntryOf(j, refs[idx[a]]) == Some(VerseEntries(j, refs)[a])
    ensures forall a, b :: 0 <= a < b < |idx| ==> idx[a] < idx[b]
    ensures forall k :: 0 <= k < |refs| && EntryOf(j, refs[k]).Some? ==> k in idx
  {
    idx := FilterMapInOrder(EntryFn(j), refs, |refs|);
  }

  /** The data keeps exactly the chapters and verses of the parallels whose
      references gave at least one entry, each with those entries, so every
      list present is nonempty. */
  lemma WebDataShape(j: Josephus, p: Parallels, c: int, v: int)
    ensures (c in WebDataOf(j, p) && v in WebDataOf(j, p)[c]) <==>
      (c in p && v in p[c] && VerseEntries(j, p[c][v]) != [])
    ensures c in WebDataOf(j, p) && v in WebDataOf(j, p)[c] ==>
      WebDataOf(j, p)[c][v] == VerseEntries(j, p[c][v]) && WebDataOf(j, p)[c][v] != []
    ensures c in WebDataOf(j, p) ==> WebDataOf(j, p)[c] != map[]
  {
    if c in p && v in p[c] && VerseEntries(j, p[c][v]) != [] {
      assert v in VerseData(j, p[c]);
    }
  }

  // ---------------------------------------------------------------------
  // Stringified keys
  // ---------------------------------------------------------------------

  lemma IntToStringInjectiveAll()
    ensures forall a: int, b: int :: IntToString(a) == IntToString(b) ==> a == b
  {
    forall a: int, b: int | IntToString(a) == IntToString(b) ensures a == b {
      IntToStringInjective(a, b);
    }
  }

  /** The inner comprehension of `final_output`. */
  function StringifyVerses(vs: map<int, seq<Entry>>): map<string, seq<Entry>> {
    IntToStringInjectiveAll();
    map v | v in vs :: IntToString(v) := vs[v]
  }

  /** `final_output`: both levels of keys passed through `str`. */
  function Stringify(d: WebData): Mapping {
    IntToStringInjectiveAll();
    map c | c in d :: IntToString(c) := StringifyVerses(d[c])
  }

  /** Every integer key is found again under its string, and nothing else is. */
  lemma StringifyLookup(d: WebData, c: int, v: int)
    ensures IntToString(c) in Stringify(d) <==> c in d
    ensures c in d ==> (IntToString(v) in Stringify(d)[IntToString(c)] <==> v in d[c])
    ensures c in d && v in d[c] ==> Stringify(d)[IntToString(c)][IntToString(v)] == d[c][v]
  {
    IntToStringInjectiveAll();
    if c in d {
      assert Stringify(d)[IntToString(c)] == StringifyVerses(d[c]);
    }
  }

  /** Every key of the output is the `str` of an integer key, which
      `int()` reads back. */
  lemma StringifyKeys(d: WebData)
    ensures forall key :: key in Stringify(d) ==>
      PyInt(key).Some? && PyInt(key).value in d && IntToString(PyInt(key).value) == key
    ensures forall key, vkey :: key in Stringify(d) && vkey in Stringify(d)[key] ==>
      PyInt(vkey).Some? && PyInt(vkey).value in d[PyInt(key).value]
  {
    IntToStringInjectiveAll();
    forall key | key in Stringify(d)
      ensures PyInt(key).Some? && PyInt(key).value in d && IntToString(PyInt(key).value) == key
    {
      var c :| c in d && IntToString(c) == key;
      PyIntOfString(c);
    }
    forall key, vkey | key in Stringify(d) && vkey in Stringify(d)[key]
      ensures PyInt(vkey).Some? && PyInt(vkey).value in d[PyInt(key).value]
    {
      var c :| c in d && IntToString(c) == key;
      PyIntOfString(c);
      assert Stringify(d)[key] == StringifyVerses(d[c]);
      var v :| v in d[c] && IntToString(v) == vkey;
      PyIntOfString(v);
    }
  }

  // ---------------------------------------------------------------------
  // The whole script
  // ---------------------------------------------------------------------

  /** What the script writes to `full_parallels.json` for the Josephus text
      `content` and the CSV `lines`, or None when it dies first (StopIteration
      on an empty CSV, IndexError in the combine loop). */
  function Script(content: string, lines: seq<string>): Option<Mapping> {
    if lines == [] then None
    else
      match Combine(MapOf(Pairs(SplitMarkers(content))), ParallelsOf(Rows(lines[1..])))
      case IndexError => None
      case Built(d) => Some(Stringify(d))
  }

  /** The script: both parsers, the combine loop, the stringification. */
  method RunScript(content: string, lines: seq<string>) returns (r: Option<Mapping>)
    ensures r == Script(content, lines)
  {
    var josephus := ParseJosephusText(content);
    var csv := ParseParallelsCsv(lines);
    if csv.StopIteration? {
      return None;
    }
    var built := BuildWebsiteData(josephus, csv.parallels);
    if built.IndexError? {
      return None;
    }
    r := Some(Stringify(built.data));
  }

  /** Every reference the CSV parser stores is "<source> <loc>", so the
      combine loop never raises IndexError on its output. */
  lemma CsvRefsSplit(lines: seq<string>)
    requires lines != []
    ensures AllSplit(ParallelsOf(Rows(lines[1..])))
  {
    var p := ParallelsOf(Rows(lines[1..]));
    forall c | c in p ensures VersesSplit(p[c]) {
      forall v | v in p[c] ensures RefsSplit(p[c][v]) {
        forall k | 0 <= k < |p[c][v]| ensures Splits(p[c][v][k]) {
          assert Lookup(p, c, v) == p[c][v];
          assert p[c][v][k] in Lookup(p, c, v);
          CsvListsOnlyRows(lines, c, v, p[c][v][k]);
          var i :| 1 <= i < |lines| && ParseRow(lines[i]) == Some(Row(c, v, p[c][v][k]));
          RowRef(lines[i]);
        }
      }
    }
  }

  /** The script writes a file exactly when the CSV has a header line. */
  lemma ScriptWrites(content: string, lines: seq<string>)
    ensures Script(content, lines).Some? <==> lines != []
  {
    if lines != [] {
      CsvRefsSplit(lines);
    }
  }

  /** End to end: the JSON holds, under the string keys of Luke chapter c
      and verse v, the entries of the references the CSV lists there, in
      their order, when there is at least one; it is empty when the
      Josephus text has no marker or the CSV has no usable row. */
  lemma ScriptContents(content: string, lines: seq<string>, c: int, v: int)
    requires lines != []
    ensures var j := MapOf(Pairs(SplitMarkers(content)));
      var p := ParallelsOf(Rows(lines[1..]));
      AllSplit(p) &&
      ((|j| == 0 || |p| == 0) ==> Script(content, lines) == Some(map[])) &&
      (|j| != 0 && |p| != 0 ==>
        ((IntToString(c) in Script(content, lines).value &&
          IntToString(v) in Script(content, lines).value[IntToString(c)]) <==>
         (Present(p, c, v) && VerseEntries(j, Lookup(p, c, v)) != [])) &&
        (Present(p, c, v) && VerseEntries(j, Lookup(p, c, v)) != [] ==>
          Script(content, lines).value[IntToString(c)][IntToString(v)] == VerseEntries(j, Lookup(p, c, v))))
  {
    var j := MapOf(Pairs(SplitMarkers(content)));
    var p := ParallelsOf(Rows(lines[1..]));
    CsvRefsSplit(lines);
    if |j| != 0 && |p| != 0 {
      var d := WebDataOf(j, p);
      assert Script(content, lines) == Some(Stringify(d));
      StringifyLookup(d, c, v);
      WebDataShape(j, p, c, v);
    }
  }
}
