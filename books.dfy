/**
  The Bible book table of `scripts/generate_indexes.py` and the sort key it
  gives book names: `normalize_book_name` and `get_book_sort_key`.
*/
module Books {
  import opened Text
  import opened Scan
  import opened Grouping

  // ---------------------------------------------------------------------
  // BOOK_ORDER
  // ---------------------------------------------------------------------

  /** Number of entries of the table. */
  const BookCount := 67

  /** Index of the first New Testament book (Matthew). */
  const FirstNewTestament := 40

  /** The table in canonical order, Genesis .. Revelation. */
  function BookOrder(): (table: seq<string>)
    ensures |table| == BookCount
  {
    seq(BookCount, i requires 0 <= i < BookCount => Entry(i))
  }

  /** Position `i` of the table holds `Entry(i)`. */
  lemma EntryAt(i: nat)
    requires i < BookCount
    ensures BookOrder()[i] == Entry(i)
  {
  }

  /** Entry `i` of the table; written as rows of ten so that each lookup stays small. */
  function Entry(i: nat): string
    requires i < BookCount
  {
    if i < 10 then Row0(i - 0)
    else if i < 20 then Row1(i - 10)
    else if i < 30 then Row2(i - 20)
    else if i < 40 then Row3(i - 30)
    else if i < 50 then Row4(i - 40)
    else if i < 60 then Row5(i - 50)
    else Row6(i - 60)
  }

  function Row0(i: nat): string
    requires i < 10
  {
    if i == 0 then "Genesis"
    else if i == 1 then "Exodus"
    else if i == 2 then "Leviticus"
    else if i == 3 then "Numbers"
    else if i == 4 then "Deuteronomy"
    else if i == 5 then "Joshua"
    else if i == 6 then "Judges"
    else if i == 7 then "Ruth"
    else if i == 8 then "1 Samuel"
    else "2 Samuel"
  }

  function Row1(i: nat): string
    requires i < 10
  {
    if i == 0 then "1 Kings"
    else if i == 1 then "2 Kings"
    else if i == 2 then "1 Chronicles"
    else if i == 3 then "2 Chronicles"
    else if i == 4 then "Ezra"
    else if i == 5 then "Nehemiah"
    else if i == 6 then "Esther"
    else if i == 7 then "Job"
    else if i == 8 then "Psalm"
    else "Proverbs"
  }

  function Row2(i: nat): string
    requires i < 10
  {
    if i == 0 then "Ecclesiastes"
    else if i == 1 then "Song of Solomon"
    else if i == 2 then "Song of Songs"
    else if i == 3 then "Isaiah"
    else if i == 4 then "Jeremiah"
    else if i == 5 then "Lamentations"
    else if i == 6 then "Ezekiel"
    else if i == 7 then "Daniel"
    else if i == 8 then "Hosea"
    else "Joel"
  }

  function Row3(i: nat): string
    requires i < 10
  {
    if i == 0 then "Amos"
    else if i == 1 then "Obadiah"
    else if i == 2 then "Jonah"
    else if i == 3 then "Micah"
    else if i == 4 then "Nahum"
    else if i == 5 then "Habakkuk"
    else if i == 6 then "Zephaniah"
    else if i == 7 then "Haggai"
    else if i == 8 then "Zechariah"
    else "Malachi"
  }

  function Row4(i: nat): string
    requires i < 10
  {
    if i == 0 then "Matthew"
    else if i == 1 then "Mark"
    else if i == 2 then "Luke"
    else if i == 3 then "John"
    else if i == 4 then "Acts"
    else if i == 5 then "Romans"
    else if i == 6 then "1 Corinthians"
    else if i == 7 then "2 Corinthians"
    else if i == 8 then "Galatians"
    else "Ephesians"
  }

  function Row5(i: nat): string
    requires i < 10
  {
    if i == 0 then "Philippians"
    else if i == 1 then "Colossians"
    else if i == 2 then "1 Thessalonians"
    else if i == 3 then "2 Thessalonians"
    else if i == 4 then "1 Timothy"
    else if i == 5 then "2 Timothy"
    else if i == 6 then "Titus"
    else if i == 7 then "Philemon"
    else if i == 8 then "Hebrews"
    else "James"
  }

  function Row6(i: nat): string
    requires i < 7
  {
    if i == 0 then "1 Peter"
    else if i == 1 then "2 Peter"
    else if i == 2 then "1 John"
    else if i == 3 then "2 John"
    else if i == 4 then "3 John"
    else if i == 5 then "Jude"
    else "Revelation"
  }

  /**
    Where a spelling sits in the table, found by its length and then its
    spelling, or -1; an independent description of the table used to show
    that its entries are distinct.
  */
  ghost function Slot(name: string): int
  {
    if |name| == 3 then
      if name == "Job" then 17 else -1
    else if |name| == 4 then
      if name == "Ruth" then 7 else if name == "Ezra" then 14 else if name == "Joel" then 29 else if name == "Amos" then 30 else if name == "Mark" then 41 else if name == "Luke" then 42 else if name == "John" then 43 else if name == "Acts" then 44 else if name == "Jude" then 65 else -1
    else if |name| == 5 then
      if name == "Psalm" then 18 else if name == "Hosea" then 28 else if name == "Jonah" then 32 else if name == "Micah" then 33 else if name == "Nahum" then 34 else if name == "Titus" then 56 else if name == "James" then 59 else -1
    else if |name| == 6 then
      if name == "Exodus" then 1 else if name == "Joshua" then 5 else if name == "Judges" then 6 else if name == "Esther" then 16 else if name == "Isaiah" then 23 else if name == "Daniel" then 27 else if name == "Haggai" then 37 else if name == "Romans" then 45 else if name == "1 John" then 62 else if name == "2 John" then 63 else if name == "3 John" then 64 else -1
    else if |name| == 7 then
      if name == "Genesis" then 0 else if name == "Numbers" then 3 else if name == "1 Kings" then 10 else if name == "2 Kings" then 11 else if name == "Ezekiel" then 26 else if name == "Obadiah" then 31 else if name == "Malachi" then 39 else if name == "Matthew" then 40 else if name == "Hebrews" then 58 else if name == "1 Peter" then 60 else if name == "2 Peter" then 61 else -1
    else if |name| == 8 then
      if name == "1 Samuel" then 8 else if name == "2 Samuel" then 9 else if name == "Nehemiah" then 15 else if name == "Proverbs" then 19 else if name == "Jeremiah" then 24 else if name == "Habakkuk" then 35 else if name == "Philemon" then 57 else -1
    else if |name| == 9 then
      if name == "Leviticus" then 2 else if name == "Zephaniah" then 36 else if name == "Zechariah" then 38 else if name == "Galatians" then 48 else if name == "Ephesians" then 49 else if name == "1 Timothy" then 54 else if name == "2 Timothy" then 55 else -1
    else if |name| == 10 then
      if name == "Colossians" then 51 else if name == "Revelation" then 66 else -1
    else if |name| == 11 then
      if name == "Deuteronomy" then 4 else if name == "Philippians" then 50 else -1
    else if |name| == 12 then
      if name == "1 Chronicles" then 12 else if name == "2 Chronicles" then 13 else if name == "Ecclesiastes" then 20 else if name == "Lamentations" then 25 else -1
    else if |name| == 13 then
      if name == "Song of Songs" then 22 else if name == "1 Corinthians" then 46 else if name == "2 Corinthians" then 47 else -1
    else if |name| == 15 then
      if name == "Song of Solomon" then 21 else if name == "1 Thessalonians" then 52 else if name == "2 Thessalonians" then 53 else -1
    else -1
  }

  /**
    Every table entry is well formed and sits at its own slot. The table is
    checked five entries at a time, which keeps each check small.
  */
  lemma SlotsFrom0(i: nat)
    requires 0 <= i < 5
    ensures Slot(Entry(i)) == i && WellFormedName(Entry(i))
  {
  }

  lemma SlotsFrom5(i: nat)
    requires 5 <= i < 10
    ensures Slot(Entry(i)) == i && WellFormedName(Entry(i))
  {
  }

  lemma SlotsFrom10(i: nat)
    requires 10 <= i < 15
    ensures Slot(Entry(i)) == i && WellFormedName(Entry(i))
  {
  }

  lemma SlotsFrom15(i: nat)
    requires 15 <= i < 20
    ensures Slot(Entry(i)) == i && WellFormedName(Entry(i))
  {
  }

  lemma SlotsFrom20(i: nat)
    requires 20 <= i < 25
    ensures Slot(Entry(i)) == i && WellFormedName(Entry(i))
  {
  }

  lemma SlotsFrom25(i: nat)
    requires 25 <= i < 30
    ensures Slot(Entry(i)) == i && WellFormedName(Entry(i))
  {
  }

  lemma SlotsFrom30(i: nat)
    requires 30 <= i < 35
    ensures Slot(Entry(i)) == i && WellFormedName(Entry(i))
  {
  }

  lemma SlotsFrom35(i: nat)
    requires 35 <= i < 40
    ensures Slot(Entry(i)) == i && WellFormedName(Entry(i))
  {
  }

  lemma SlotsFrom40(i: nat)
    requires 40 <= i < 45
    ensures Slot(Entry(i)) == i && WellFormedName(Entry(i))
  {
  }

  lemma SlotsFrom45(i: nat)
    requires 45 <= i < 50
    ensures Slot(Entry(i)) == i && WellFormedName(Entry(i))
  {
  }

  lemma SlotsFrom50(i: nat)
    requires 50 <= i < 55
    ensures Slot(Entry(i)) == i && WellFormedName(Entry(i))
  {
  }

  lemma SlotsFrom55(i: nat)
    requires 55 <= i < 60
    ensures Slot(Entry(i)) == i && WellFormedName(Entry(i))
  {
  }

  lemma SlotsFrom60(i: nat)
    requires 60 <= i < 65
    ensures Slot(Entry(i)) == i && WellFormedName(Entry(i))
  {
  }

  lemma SlotsFrom65(i: nat)
    requires 65 <= i < 67
    ensures Slot(Entry(i)) == i && WellFormedName(Entry(i))
  {
  }

  lemma SlotOfEntry(i: nat)
    requires i < BookCount
    ensures Slot(Entry(i)) == i
    ensures WellFormedName(Entry(i))
  {
    if i < 5 { SlotsFrom0(i); }
    else if i < 10 { SlotsFrom5(i); }
    else if i < 15 { SlotsFrom10(i); }
    else if i < 20 { SlotsFrom15(i); }
    else if i < 25 { SlotsFrom20(i); }
    else if i < 30 { SlotsFrom25(i); }
    else if i < 35 { SlotsFrom30(i); }
    else if i < 40 { SlotsFrom35(i); }
    else if i < 45 { SlotsFrom40(i); }
    else if i < 50 { SlotsFrom45(i); }
    else if i < 55 { SlotsFrom50(i); }
    else if i < 60 { SlotsFrom55(i); }
    else if i < 65 { SlotsFrom60(i); }
    else { SlotsFrom65(i); }
  }

  /** The table has 67 distinct entries. */
  lemma BookOrderDistinct()
    ensures |BookOrder()| == BookCount
    ensures Distinct(BookOrder())
  {
    forall i, j | 0 <= i < j < BookCount ensures BookOrder()[i] != BookOrder()[j] {
      EntryAt(i);
      EntryAt(j);
      SlotOfEntry(i);
      SlotOfEntry(j);
    }
  }

  // ---------------------------------------------------------------------
  // normalize_book_name
  // ---------------------------------------------------------------------

  /**
    `normalize_book_name`: strip, turn exactly "Psalms" into "Psalm", and
    leave one space between a leading digit and the letter after it.
  */
  function NormalizeBookName(book: string): (r: string)
    ensures IsStripped(r)
    ensures Strip(book) == "Psalms" ==> r == "Psalm"
  {
    var s := Strip(book);
    var s1 := if s == "Psalms" then "Psalm" else s;
    PsalmKept("Psalm");
    CloseDigitGap(s1)
  }

  lemma PsalmKept(p: string)
    requires p == "Psalm"
    ensures IsStripped(p) && CloseDigitGap(p) == p
  {
    assert !IsDigit(p[0]);
  }

  /** `re.sub(r'^(\d)\s*([A-Za-z])', r'\1 \2', book)`. */
  function CloseDigitGap(s: string): (r: string)
    ensures IsStripped(s) ==> IsStripped(r)
  {
    if |s| >= 1 && IsDigit(s[0]) then
      var k := SkipSpaces(s, 1);
      if k < |s| && IsAlpha(s[k]) then [s[0]] + " " + s[k..] else s
    else s
  }

  /** A name `NormalizeBookName` leaves alone. */
  predicate WellFormedName(n: string) {
    IsStripped(n) && n != "Psalms" &&
    (|n| >= 1 && IsDigit(n[0]) && SkipSpaces(n, 1) < |n| && IsAlpha(n[SkipSpaces(n, 1)]) ==>
       SkipSpaces(n, 1) == 2 && n[1] == ' ')
  }

  lemma NormalizeWellFormed(n: string)
    requires WellFormedName(n)
    ensures NormalizeBookName(n) == n
  {
    StripOfStripped(n);
    if |n| >= 1 && IsDigit(n[0]) && SkipSpaces(n, 1) < |n| && IsAlpha(n[SkipSpaces(n, 1)]) {
      assert [n[0]] + " " + n[2..] == n;
    }
  }

  /** Every result of `NormalizeBookName` is well formed. */
  lemma NormalizedIsWellFormed(book: string)
    ensures WellFormedName(NormalizeBookName(book))
  {
    var s := Strip(book);
    var s1 := if s == "Psalms" then "Psalm" else s;
    assert s1 != "Psalms" by {
      if s == "Psalms" {
        assert |s1| == 5;
      }
    }
    CloseDigitGapWellFormed(s1);
  }

  lemma CloseDigitGapWellFormed(s: string)
    requires IsStripped(s) && s != "Psalms"
    ensures WellFormedName(CloseDigitGap(s))
  {
    var r := CloseDigitGap(s);
    if |s| >= 1 && IsDigit(s[0]) {
      var k := SkipSpaces(s, 1);
      if k < |s| && IsAlpha(s[k]) {
        assert r == [s[0]] + " " + s[k..];
        assert r[0] != 'P';
        assert r[2] == s[k];
        assert SkipSpaces(r, 2) == 2;
      }
    }
  }

  /** Normalising twice is normalising once. */
  lemma NormalizeIdempotent(book: string)
    ensures NormalizeBookName(NormalizeBookName(book)) == NormalizeBookName(book)
  {
    NormalizedIsWellFormed(book);
    NormalizeWellFormed(NormalizeBookName(book));
  }

  /**
    Apart from "Psalms", the result is the stripped name, or the stripped
    name with the whitespace after its leading digit replaced by one space.
  */
  predicate DigitGapClosed(s: string, r: string) {
    r == s || (s == "Psalms" && r == "Psalm") ||
    (|s| >= 1 && IsDigit(s[0]) && |r| >= 3 && r[..2] == [s[0], ' '] && IsAlpha(r[2]) &&
     EndsWith(s, r[2..]) && AllSpace(s[1..|s| - (|r| - 2)]))
  }

  lemma NormalizeShape(book: string)
    ensures DigitGapClosed(Strip(book), NormalizeBookName(book))
  {
    var s := Strip(book);
    if s != "Psalms" {
      CloseDigitGapShape(s);
    }
  }

  lemma CloseDigitGapShape(s: string)
    ensures DigitGapClosed(s, CloseDigitGap(s))
  {
    if |s| >= 1 && IsDigit(s[0]) {
      var k := SkipSpaces(s, 1);
      if k < |s| && IsAlpha(s[k]) {
        var r := CloseDigitGap(s);
        assert r == [s[0]] + " " + s[k..];
        assert r[2..] == s[k..];
        assert |s| - (|r| - 2) == k;
      }
    }
  }

  /** The gap rule on a name built as digit, whitespace run, word. */
  lemma CloseDigitGapOf(d: char, sp: string, w: string)
    requires IsDigit(d) && AllSpace(sp) && w != [] && IsAlpha(w[0])
    ensures CloseDigitGap([d] + sp + w) == [d] + " " + w
  {
    var s := [d] + sp + w;
    assert s[1..1 + |sp|] == sp && s[1 + |sp|] == w[0];
    SkipSpacesTo(s, 1, 1 + |sp|);
    assert s[1 + |sp|..] == w;
  }

  /**
    A name made of a digit, any run of whitespace (possibly none) and a
    word normalises to the digit, one space and the word: "1Samuel" and
    "2   Kings" become "1 Samuel" and "2 Kings".
  */
  lemma NormalizeDigitName(d: char, sp: string, w: string)
    requires IsDigit(d) && AllSpace(sp)
    requires w != [] && IsAlpha(w[0]) && !IsSpace(w[|w| - 1])
    ensures NormalizeBookName([d] + sp + w) == [d] + " " + w
  {
    var s := [d] + sp + w;
    assert s[0] == d && s[|s| - 1] == w[|w| - 1];
    NormalizeOfDigitLed(s);
    CloseDigitGapOf(d, sp, w);
  }

  /** A stripped name that starts with a digit only goes through the gap rule. */
  lemma NormalizeOfDigitLed(s: string)
    requires IsStripped(s) && s != [] && IsDigit(s[0])
    ensures NormalizeBookName(s) == CloseDigitGap(s)
  {
    StripOfStripped(s);
    assert s != "Psalms" by { assert s[0] != "Psalms"[0]; }
  }

  lemma NormalizePsalms()
    ensures NormalizeBookName(" Psalms ") == "Psalm"
  {
    assert " Psalms "[1..] == "Psalms ";
    LStripOfStripped("Psalms ");
    assert "Psalms "[..6] == "Psalms";
    RStripOfStripped("Psalms");
  }

  // ---------------------------------------------------------------------
  // get_book_sort_key
  // ---------------------------------------------------------------------

  /** Sort index of names found in no tier. */
  const Unknown: int := 999

  /** `name.lower().startswith(entry.lower())`. */
  predicate PrefixOf(entry: string, name: string) {
    StartsWith(Lower(name), Lower(entry))
  }

  /** `BOOK_ORDER.index(name)` searched from `from`, or -1 for the ValueError. */
  function ExactFrom(name: string, from: nat): (r: int)
    requires from <= BookCount
    ensures r == -1 || from <= r < BookCount
    ensures r != -1 ==> BookOrder()[r] == name && forall j | from <= j < r :: BookOrder()[j] != name
    ensures r == -1 ==> forall j | from <= j < BookCount :: BookOrder()[j] != name
    decreases BookCount - from
  {
    if from == BookCount then -1
    else if BookOrder()[from] == name then from
    else ExactFrom(name, from + 1)
  }

  /** The first index at or after `from` whose entry is a case-insensitive prefix of `name`, or -1. */
  function PrefixFrom(name: string, from: nat): (r: int)
    requires from <= BookCount
    ensures r == -1 || from <= r < BookCount
    ensures r != -1 ==> PrefixOf(BookOrder()[r], name) && forall j | from <= j < r :: !PrefixOf(BookOrder()[j], name)
    ensures r == -1 ==> forall j | from <= j < BookCount :: !PrefixOf(BookOrder()[j], name)
    decreases BookCount - from
  {
    if from == BookCount then -1
    else if PrefixOf(BookOrder()[from], name) then from
    else PrefixFrom(name, from + 1)
  }

  /** The index part of `get_book_sort_key` for an already normalised name. */
  function BookRank(name: string): (r: int)
    ensures 0 <= r < BookCount || r == Unknown
    ensures r == Unknown <==> forall j | 0 <= j < BookCount :: BookOrder()[j] != name && !PrefixOf(BookOrder()[j], name)
  {
    var e := ExactFrom(name, 0);
    if e != -1 then e
    else
      var p := PrefixFrom(name, 0);
      if p != -1 then p else Unknown
  }

  /**
    `get_book_sort_key(book_name)`: normalise, look the name up in the table,
    then try the entries as case-insensitive prefixes, then fall back to 999.
  */
  method GetBookSortKey(bookName: string) returns (idx: int, normalized: string)
    ensures normalized == NormalizeBookName(bookName)
    ensures idx == BookRank(normalized)
  {
    normalized := NormalizeBookName(bookName);
    var table := BookOrder();
    var e := IndexOf(table, normalized);
    if e != -1 {
      ExactFirst(normalized, e);
      return e, normalized;
    }
    var p := FirstPrefix(table, normalized);
    if p != -1 {
      PrefixFirst(normalized, p);
      return p, normalized;
    }
    NoRank(normalized);
    idx := Unknown;
  }

  /** The prefix loop of `get_book_sort_key`: the first entry that is a case-insensitive prefix of `name`, or -1. */
  method FirstPrefix(table: seq<string>, name: string) returns (r: int)
    ensures r == -1 ==> forall j | 0 <= j < |table| :: !PrefixOf(table[j], name)
    ensures r != -1 ==> 0 <= r < |table| && PrefixOf(table[r], name)
    ensures r != -1 ==> forall j | 0 <= j < r :: !PrefixOf(table[j], name)
  {
    var lowered := Lower(name);
    r := 0;
    while r < |table|
      invariant 0 <= r <= |table|
      invariant forall j | 0 <= j < r :: !PrefixOf(table[j], name)
    {
      if StartsWith(lowered, Lower(table[r])) {
        return;
      }
      r := r + 1;
    }
    r := -1;
  }

  /** Python `list.index`, with -1 standing for the ValueError. */
  method IndexOf(s: seq<string>, x: string) returns (r: int)
    ensures r == -1 <==> x !in s
    ensures r != -1 ==> 0 <= r < |s| && s[r] == x && x !in s[..r]
  {
    r := 0;
    while r < |s|
      invariant 0 <= r <= |s|
      invariant x !in s[..r]
    {
      if s[r] == x {
        return;
      }
      r := r + 1;
    }
    assert s[..r] == s;
    r := -1;
  }

  lemma ExactFirst(name: string, i: nat)
    requires i < BookCount && BookOrder()[i] == name && name !in BookOrder()[..i]
    ensures BookRank(name) == i
  {
    var e := ExactFrom(name, 0);
    assert e != -1;
  }

  lemma NoRank(name: string)
    requires name !in BookOrder()
    requires forall j | 0 <= j < BookCount :: !PrefixOf(BookOrder()[j], name)
    ensures BookRank(name) == Unknown
  {
    var e := ExactFrom(name, 0);
  }

  lemma PrefixFirst(name: string, i: nat)
    requires forall j | 0 <= j < BookCount :: BookOrder()[j] != name
    requires i < BookCount && PrefixOf(BookOrder()[i], name)
    requires forall j | 0 <= j < i :: !PrefixOf(BookOrder()[j], name)
    ensures BookRank(name) == i
  {
    var p := PrefixFrom(name, 0);
    assert p != -1;
  }

  /** Each table entry is a normalised name whose sort index is its own position. */
  lemma RankOfEntry(i: nat)
    requires i < BookCount
    ensures NormalizeBookName(BookOrder()[i]) == BookOrder()[i]
    ensures BookRank(BookOrder()[i]) == i
  {
    EntryAt(i);
    SlotOfEntry(i);
    NormalizeWellFormed(BookOrder()[i]);
    BookOrderDistinct();
    assert BookOrder()[i] !in BookOrder()[..i];
    ExactFirst(BookOrder()[i], i);
  }

  /** Old Testament books sort before New Testament books, and unknown names after both. */
  lemma TestamentsOrdered(i: nat, j: nat, name: string)
    requires i < FirstNewTestament <= j < BookCount
    ensures BookOrder()[0] == "Genesis" && BookOrder()[FirstNewTestament - 1] == "Malachi"
    ensures BookOrder()[FirstNewTestament] == "Matthew" && BookOrder()[BookCount - 1] == "Revelation"
    ensures BookRank(BookOrder()[i]) < BookRank(BookOrder()[j])
    ensures BookRank(name) == Unknown ==> BookRank(BookOrder()[j]) < BookRank(name)
  {
    TestamentBounds();
    RankOfEntry(i);
    RankOfEntry(j);
  }

  lemma TestamentBounds()
    ensures BookOrder()[0] == "Genesis" && BookOrder()[FirstNewTestament - 1] == "Malachi"
    ensures BookOrder()[FirstNewTestament] == "Matthew" && BookOrder()[BookCount - 1] == "Revelation"
  {
    EntryAt(0);
    EntryAt(FirstNewTestament - 1);
    EntryAt(FirstNewTestament);
    EntryAt(BookCount - 1);
  }
}
