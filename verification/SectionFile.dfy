/** Printing sections of lines and reading them back with `getSection` and `getLine`. */
module SectionFile {
  import opened Bytes
  import opened BufferModel

  datatype SectionText = SectionText(name: bytes, lines: seq<bytes>)

  function PrintLines(lines: seq<bytes>): bytes {
    if lines == [] then [] else lines[0] + [NEWLINE] + PrintLines(lines[1..])
  }

  function Header(name: bytes): bytes {
    [OPEN_BRACKET] + name + [CLOSE_BRACKET, NEWLINE]
  }

  function Print(secs: seq<SectionText>): bytes {
    if secs == [] then [] else Header(secs[0].name) + (PrintLines(secs[0].lines) + Print(secs[1..]))
  }

  /** `getLine` until the read position reaches the write position. */
  function ReadLines(b: Buf): (r: (seq<bytes>, Buf))
    requires b.Valid()
    ensures r.1 == b.(posRead := r.1.posRead) && r.1.Valid()
    ensures b.posRead <= r.1.posRead && r.1.posWrite <= r.1.posRead
    decreases |b.data| + 1 - b.posRead
  {
    if b.posRead >= b.posWrite then ([], b)
    else
      var (line, b1) := GetLine(b);
      var (lines, b2) := ReadLines(b1);
      ([line] + lines, b2)
  }

  /**
   * `getSection` and then its lines, until a section has no name. Every section starts beyond
   * the previous one, so this ends.
   */
  ghost function ReadSections(b: Buf): seq<SectionText>
    requires b.Valid()
    decreases |b.data| + 1 - b.posRead
  {
    var (name, b1) := GetSection(b, false);
    if name == [] then []
    else
      SectionAdvances(b, false);
      var (lines, b2) := ReadLines(b1);
      [SectionText(name, lines)] + ReadSections(b2)
  }

  /** A section that is found starts at or after the cursor, beyond it when skipping, and the cursor moves past its start. */
  lemma SectionAdvances(b: Buf, skip: bool)
    requires b.Valid() && GetSection(b, skip).0 != []
    ensures var b1 := GetSection(b, skip).1;
            && b1.Valid() && b1.data == b.data && b.posRead + (if skip then 1 else 0) <= b1.startSection < b1.posRead
            && IsStart(b.data, b1.startSection)
            && forall j: nat :: b.posRead + (if skip then 1 else 0) <= j < b1.startSection ==> !IsStart(b.data, j)
  {
  }

  // ---- what can be printed and what is read ----------------------------------------------------

  ghost predicate CleanName(name: bytes) {
    name != [] && forall i :: 0 <= i < |name| - 1 ==> !(name[i] == CLOSE_BRACKET && name[i + 1] == NEWLINE)
  }

  ghost predicate CleanLine(line: bytes) {
    NEWLINE !in line && (line != [] ==> line[0] != OPEN_BRACKET)
  }

  ghost predicate CleanLines(lines: seq<bytes>) {
    forall line <- lines :: CleanLine(line)
  }

  ghost predicate Clean(secs: seq<SectionText>) {
    forall s <- secs :: CleanName(s.name) && CleanLines(s.lines)
  }

  /** The extra newline that `getLine` skips is a whole blank line. */
  function DropBlank(lines: seq<bytes>): seq<bytes> {
    if lines == [] then []
    else [lines[0]] + DropBlank(if |lines| > 1 && lines[1] == [] then lines[2..] else lines[1..])
  }

  /** What is read of a section: a final section without lines comes with a blank line. */
  function LinesRead(sec: SectionText, last: bool): seq<bytes> {
    if last && sec.lines == [] then [[]] else DropBlank(sec.lines)
  }

  function Normal(secs: seq<SectionText>): seq<SectionText> {
    if secs == [] then []
    else
      [SectionText(secs[0].name, LinesRead(secs[0], |secs| == 1))] + Normal(secs[1..])
  }

  ghost predicate NoLaterBlank(lines: seq<bytes>) {
    forall i :: 1 <= i < |lines| ==> lines[i] != []
  }

  /** The files that survive printing and reading. */
  ghost predicate Printable(secs: seq<SectionText>) {
    && Clean(secs)
    && (forall s <- secs :: NoLaterBlank(s.lines))
    && (secs != [] ==> secs[|secs| - 1].lines != [])
  }

  // ---- lines ----------------------------------------------------------------------------------

  /** No printed line is mistaken for the start of a section. */
  lemma {:induction false} NoStartInLines(lines: seq<bytes>, i: nat)
    requires CleanLines(lines)
    requires i < |PrintLines(lines)| && PrintLines(lines)[i] == OPEN_BRACKET
    ensures i > 0 && PrintLines(lines)[i - 1] != NEWLINE
  {
    var first, rest := lines[0] + [NEWLINE], PrintLines(lines[1..]);
    assert CleanLine(lines[0]);
    if i < |first| {
      assert first[i] == OPEN_BRACKET && i < |lines[0]|;
      assert PrintLines(lines)[i - 1] == lines[0][i - 1];
    } else {
      NoStartInLines(lines[1..], i - |first|);
      assert PrintLines(lines)[i - 1] == rest[i - 1 - |first|];
    }
  }

  lemma LineAtCursor(b: Buf, line: bytes, rest: bytes)
    requires b.Valid() && b.posRead < b.posWrite
    requires b.data[b.posRead..b.posWrite] == line + [NEWLINE] + rest && NEWLINE !in line
    requires b.posWrite < |b.data| ==> b.data[b.posWrite] != NEWLINE
    ensures var skip := if rest != [] && rest[0] == NEWLINE then 1 else 0;
            GetLine(b) == (line, b.(posRead := b.posRead + |line| + 1 + skip))
  {
    var d, r := b.data, b.posRead;
    var e := r + |line|;
    SliceParts(d, r, b.posWrite, line, [NEWLINE] + rest) by {
      assert line + [NEWLINE] + rest == line + ([NEWLINE] + rest);
    }
    SliceParts(d, e, b.posWrite, [NEWLINE], rest);
    assert d[e] == d[e..e + 1][0];
    assert forall j :: r <= j < e ==> d[j] == d[r..e][j - r];
    assert IndexOf(d, NEWLINE, r) == e;
    if rest != [] {
      assert d[e + 1] == rest[0];
    }
  }

  /** One `getLine` consumes the first printed line, and the blank line after it if there is one. */
  lemma LineIsReadBack(b: Buf, lines: seq<bytes>)
    requires b.Valid() && b.posRead <= b.posWrite && lines != []
    requires b.data[b.posRead..b.posWrite] == PrintLines(lines)
    requires forall line <- lines :: NEWLINE !in line
    requires b.posWrite < |b.data| ==> b.data[b.posWrite] != NEWLINE
    ensures var (line, b1) := GetLine(b);
            var rest := if |lines| > 1 && lines[1] == [] then lines[2..] else lines[1..];
            && line == lines[0] && b1 == b.(posRead := b1.posRead)
            && b.posRead < b1.posRead <= b.posWrite && b.data[b1.posRead..b.posWrite] == PrintLines(rest)
  {
    var d, r, w := b.data, b.posRead, b.posWrite;
    var after := PrintLines(lines[1..]);
    LineAtCursor(b, lines[0], after);
    FirstByteOfLines(lines[1..]);
    SliceParts(d, r, w, lines[0] + [NEWLINE], after);
    if |lines| > 1 && lines[1] == [] {
      assert lines[1..][1..] == lines[2..];
      assert after == [NEWLINE] + PrintLines(lines[2..]);
      SliceParts(d, r + |lines[0]| + 1, w, [NEWLINE], PrintLines(lines[2..]));
    }
  }

  /** Reading printed lines gives them back, except for the blank lines that are skipped. */
  lemma {:induction false} LinesAreReadBack(b: Buf, lines: seq<bytes>)
    requires b.Valid() && b.posRead <= b.posWrite
    requires b.data[b.posRead..b.posWrite] == PrintLines(lines)
    requires forall line <- lines :: NEWLINE !in line
    requires b.posWrite < |b.data| ==> b.data[b.posWrite] != NEWLINE
    ensures ReadLines(b) == (DropBlank(lines), b.(posRead := b.posWrite))
    decreases |lines|
  {
    if lines == [] {
      assert b.(posRead := b.posWrite) == b;
    } else {
      var rest := if |lines| > 1 && lines[1] == [] then lines[2..] else lines[1..];
      LineIsReadBack(b, lines);
      LinesAreReadBack(GetLine(b).1, rest);
    }
  }

  lemma FirstByteOfLines(lines: seq<bytes>)
    requires lines != [] ==> NEWLINE !in lines[0]
    ensures PrintLines(lines) != [] && PrintLines(lines)[0] == NEWLINE <==> lines != [] && lines[0] == []
  {
    if lines != [] && lines[0] != [] {
      assert PrintLines(lines)[0] == lines[0][0];
    }
  }

  // ---- one section ----------------------------------------------------------------------------

  /** `sec` is printed at `p`, and `rest` after it up to the end. */
  ghost predicate Laid(d: bytes, p: nat, sec: SectionText, rest: bytes) {
    var r, q := p + 3 + |sec.name|, |d| - |rest|;
    && r <= q && d[p] == OPEN_BRACKET && d[p + 1..r - 2] == sec.name && d[r - 2] == CLOSE_BRACKET && d[r - 1] == NEWLINE
    && d[r..q] == PrintLines(sec.lines) && d[q..] == rest
  }

  lemma PrintedIsLaid(d: bytes, p: nat, sec: SectionText, rest: bytes)
    requires p <= |d| && d[p..] == Header(sec.name) + (PrintLines(sec.lines) + rest)
    ensures Laid(d, p, sec, rest)
  {
    var q := p + 1 + |sec.name|;
    var e := q + 2 + |PrintLines(sec.lines)|;
    HeaderIsLaid(d, p, q, sec.name, PrintLines(sec.lines) + rest);
    TailParts(d, q + 2, e, PrintLines(sec.lines), rest);
  }

  lemma HeaderIsLaid(d: bytes, p: nat, q: nat, name: bytes, rest: bytes)
    requires p <= |d| && d[p..] == Header(name) + rest && q == p + 1 + |name|
    ensures q + 2 <= |d| && d[p] == OPEN_BRACKET && d[p + 1..q] == name
    ensures d[q] == CLOSE_BRACKET && d[q + 1] == NEWLINE && d[q + 2..] == rest
  {
    assert Header(name) + rest == [OPEN_BRACKET] + (name + ([CLOSE_BRACKET, NEWLINE] + rest));
    TailParts(d, p, p + 1, [OPEN_BRACKET], name + ([CLOSE_BRACKET, NEWLINE] + rest));
    TailParts(d, p + 1, q, name, [CLOSE_BRACKET, NEWLINE] + rest);
    TailParts(d, q, q + 2, [CLOSE_BRACKET, NEWLINE], rest);
    assert d[p..p + 1][0] == d[p] && d[q..q + 2][0] == d[q] && d[q..q + 2][1] == d[q + 1];
  }

  lemma HeaderAtCursor(d: bytes, p: nat, name: bytes)
    requires p + 2 + |name| < |d| && d[p] == OPEN_BRACKET && d[p + 1..p + 1 + |name|] == name
    requires d[p + 1 + |name|] == CLOSE_BRACKET && d[p + 2 + |name|] == NEWLINE
    requires CleanName(name) && (p == 0 || d[p - 1] == NEWLINE)
    ensures IsStart(d, p) && NextStart(d, p) == p && NextEnd(d, p) == p + 1 + |name|
  {
    var e := p + 1 + |name|;
    assert IsStart(d, p) && IsEnd(d, e);
    forall j: nat | p <= j < e
      ensures !IsEnd(d, j)
    {
      if p < j {
        assert d[j] == name[j - p - 1];
        assert j + 1 < e ==> d[j + 1] == name[j - p];
      }
    }
  }

  /** After a header, the write position is put at the next printed section, or at the end. */
  lemma SectionEndsAtNext(d: bytes, e: nat, lines: seq<bytes>, rest: bytes)
    requires e + 2 <= |d| && d[e] == CLOSE_BRACKET && d[e + 1] == NEWLINE
    requires e + 2 + |rest| <= |d| && CleanLines(lines)
    requires d[e + 2..|d| - |rest|] == PrintLines(lines) && d[|d| - |rest|..] == rest
    requires rest != [] ==> rest[0] == OPEN_BRACKET
    ensures NextStart(d, e) == if rest == [] then -1 else |d| - |rest|
  {
    var q := |d| - |rest|;
    forall j: nat | e <= j < q
      ensures !IsStart(d, j)
    {
      if j >= e + 2 && d[j] == OPEN_BRACKET {
        assert d[j] == d[e + 2..q][j - e - 2];
        NoStartInLines(lines, j - e - 2);
        assert d[j - 1] == d[e + 2..q][j - e - 3];
      }
    }
    if rest != [] {
      assert d[q] == rest[0];
      PrintedLinesEnd(lines);
      assert d[q - 1] == NEWLINE by {
        if lines != [] {
          assert d[q - 1] == d[e + 2..q][q - e - 3];
        }
      }
      assert IsStart(d, q);
    }
  }

  lemma {:induction false} PrintedLinesEnd(lines: seq<bytes>)
    ensures lines != [] ==> PrintLines(lines) != [] && PrintLines(lines)[|PrintLines(lines)| - 1] == NEWLINE
  {
    if |lines| > 1 {
      PrintedLinesEnd(lines[1..]);
    }
  }

  lemma SectionFound(b: Buf, skip: bool, from: nat, s: nat, e: nat)
    requires from == (if skip then b.posRead + 1 else b.posRead) && from <= s
    requires NextStart(b.data, from) == s && NextStart(b.data, s) == s && NextEnd(b.data, s) == e
    ensures GetSection(b, skip) == (b.data[s + 1..e], EnterSection(b, s, e))
  {
  }

  lemma StartComesNext(d: bytes, from: nat, s: nat)
    requires from <= s && IsStart(d, s) && forall j: nat :: from <= j < s ==> !IsStart(d, j)
    ensures NextStart(d, from) == s
  {
  }

  /**
   * `getSection` finds a printed section in front of others when no section starts between the
   * cursor and it; with `skip` the one at the cursor itself does not count.
   */
  lemma SectionIsEntered(b: Buf, p: nat, sec: SectionText, rest: bytes, skip: bool)
    requires b.Valid() && Laid(b.data, p, sec, rest)
    requires p == 0 || b.data[p - 1] == NEWLINE
    requires CleanName(sec.name) && CleanLines(sec.lines)
    requires rest != [] ==> rest[0] == OPEN_BRACKET
    requires var from := if skip then b.posRead + 1 else b.posRead;
             from <= p && forall j: nat :: from <= j < p ==> !IsStart(b.data, j)
    ensures var r := p + 3 + |sec.name|;
            GetSection(b, skip)
            == (sec.name, Buf(b.data, if r == |b.data| then r - 1 else r, |b.data| - |rest|, p))
  {
    var from := if skip then b.posRead + 1 else b.posRead;
    HeaderAtCursor(b.data, p, sec.name);
    StartComesNext(b.data, from, p);
    SectionFound(b, skip, from, p, p + 1 + |sec.name|);
    HeaderIsEntered(b, p, sec, rest);
  }

  lemma HeaderIsEntered(b: Buf, p: nat, sec: SectionText, rest: bytes)
    requires Laid(b.data, p, sec, rest) && CleanLines(sec.lines) && (rest != [] ==> rest[0] == OPEN_BRACKET)
    ensures var r := p + 3 + |sec.name|;
            EnterSection(b, p, p + 1 + |sec.name|) == Buf(b.data, if r == |b.data| then r - 1 else r, |b.data| - |rest|, p)
  {
    var r := p + 3 + |sec.name|;
    SectionEndsAtNext(b.data, r - 2, sec.lines, rest);
    assert AfterHeader(b.data, r - 2) == if r == |b.data| then r - 1 else r;
  }

  /** The lines of the section that was entered; afterwards the cursor is at the next section. */
  lemma LinesOfSection(b: Buf, p: nat, sec: SectionText, rest: bytes)
    requires Laid(b.data, p, sec, rest) && b.posWrite == |b.data| - |rest| && CleanLines(sec.lines)
    requires var r := p + 3 + |sec.name|; b.posRead == if r == |b.data| then r - 1 else r
    requires rest != [] ==> rest[0] == OPEN_BRACKET
    ensures ReadLines(b) == (LinesRead(sec, rest == []), b.(posRead := b.posWrite))
  {
    assert b.posWrite < |b.data| ==> b.data[b.posWrite] == rest[0];
    PrintedLinesEnd(sec.lines);
    if sec.lines == [] && rest == [] {
      assert b.data[b.posRead..b.posWrite] == [NEWLINE] == PrintLines([[]]);
      LinesAreReadBack(b, [[]]);
      BlankLineStays();
    } else {
      LinesAreReadBack(b, sec.lines);
    }
  }

  lemma NewlineBeforeRest(d: bytes, p: nat, sec: SectionText, rest: bytes)
    requires Laid(d, p, sec, rest)
    ensures d[|d| - |rest| - 1] == NEWLINE
  {
    var r, q := p + 3 + |sec.name|, |d| - |rest|;
    PrintedLinesEnd(sec.lines);
    if sec.lines != [] {
      assert d[q - 1] == d[r..q][q - 1 - r];
    }
  }

  /** One round of the reading loop: the section that is entered, its lines, and the cursor afterwards. */
  lemma SectionIsReadBack(b: Buf, sec: SectionText, rest: bytes) returns (b1: Buf, b2: Buf)
    requires b.Valid() && Laid(b.data, b.posRead, sec, rest)
    requires b.posRead == 0 || b.data[b.posRead - 1] == NEWLINE
    requires CleanName(sec.name) && CleanLines(sec.lines)
    requires rest != [] ==> rest[0] == OPEN_BRACKET
    ensures GetSection(b, false) == (sec.name, b1) && b1.Valid()
    ensures ReadLines(b1) == (LinesRead(sec, rest == []), b2)
    ensures b2 == Buf(b.data, |b.data| - |rest|, |b.data| - |rest|, b.posRead)
  {
    SectionIsEntered(b, b.posRead, sec, rest, false);
    b1 := GetSection(b, false).1;
    LinesOfSection(b1, b.posRead, sec, rest);
    b2 := ReadLines(b1).1;
  }

  lemma ReadSectionsUnfolds(b: Buf, name: bytes, b1: Buf, lines: seq<bytes>, b2: Buf)
    requires b.Valid() && GetSection(b, false) == (name, b1) && name != []
    requires b1.Valid() && ReadLines(b1) == (lines, b2)
    ensures b2.Valid() && ReadSections(b) == [SectionText(name, lines)] + ReadSections(b2)
  {
  }

  lemma PrintStartsSection(secs: seq<SectionText>)
    ensures secs != [] ==> Print(secs) != [] && Print(secs)[0] == OPEN_BRACKET
  {
  }

  lemma BlankLineStays()
    ensures DropBlank([[]]) == [[]]
  {
    var blank: seq<bytes> := [[]];
    assert blank[1..] == [] && DropBlank(blank[1..]) == [];
  }

  /** The cursor is at the start of a line, and the sections are printed from there to the end. */
  ghost predicate PrintedFrom(b: Buf, secs: seq<SectionText>) {
    b.Valid() && b.posRead <= |b.data| && b.data[b.posRead..] == Print(secs)
    && (b.posRead == 0 || b.data[b.posRead - 1] == NEWLINE)
  }

  lemma NextPrintedFrom(b: Buf, b2: Buf, sec: SectionText, rest: bytes, secs: seq<SectionText>)
    requires Laid(b.data, b.posRead, sec, rest) && rest == Print(secs)
    requires b2.Valid() && b2.data == b.data && b2.posRead == |b.data| - |rest|
    ensures PrintedFrom(b2, secs)
  {
    NewlineBeforeRest(b.data, b.posRead, sec, rest);
  }

  lemma FirstSectionIsReadBack(b: Buf, secs: seq<SectionText>) returns (b1: Buf, b2: Buf)
    requires PrintedFrom(b, secs) && Clean(secs) && secs != []
    ensures GetSection(b, false) == (secs[0].name, b1) && b1.Valid()
    ensures ReadLines(b1) == (LinesRead(secs[0], |secs| == 1), b2) && PrintedFrom(b2, secs[1..])
  {
    var sec, rest := secs[0], Print(secs[1..]);
    PrintedIsLaid(b.data, b.posRead, sec, rest);
    PrintStartsSection(secs[1..]);
    b1, b2 := SectionIsReadBack(b, sec, rest);
    NextPrintedFrom(b, b2, sec, rest, secs[1..]);
  }

  /** Exactly what becomes of a printed file: blank lines after other lines go, nothing else changes. */
  lemma {:induction false} SectionsAreReadBack(b: Buf, secs: seq<SectionText>)
    requires PrintedFrom(b, secs) && Clean(secs)
    ensures ReadSections(b) == Normal(secs)
    decreases |secs|
  {
    if secs == [] {
      assert NextStart(b.data, b.posRead) == -1;
    } else {
      var b1, b2 := FirstSectionIsReadBack(b, secs);
      ReadSectionsUnfolds(b, secs[0].name, b1, LinesRead(secs[0], |secs| == 1), b2);
      SectionsAreReadBack(b2, secs[1..]);
    }
  }

  // ---- everything that is read is clean --------------------------------------------------------

  /** Inside a section no line start holds an opening bracket. */
  ghost predicate Inside(b: Buf) {
    && b.Valid()
    && (b.posRead < b.posWrite ==> b.data[b.posRead] != OPEN_BRACKET)
    && forall j :: b.posRead < j < b.posWrite && b.data[j] == OPEN_BRACKET ==> b.data[j - 1] != NEWLINE
  }

  lemma LineReadIsClean(b: Buf)
    requires Inside(b) && b.posRead < b.posWrite
    ensures var (line, b1) := GetLine(b);
            && NEWLINE !in line && (line != [] ==> line[0] != OPEN_BRACKET)
            && (b1.posRead < b1.posWrite ==> Inside(b1))
  {
    var (line, b1) := GetLine(b);
    assert line != [] ==> line[0] == b.data[b.posRead];
    assert b1.posRead < b.posWrite ==> b.data[b1.posRead - 1] == NEWLINE;
  }

  lemma {:induction false} LinesReadAreClean(b: Buf)
    requires Inside(b)
    ensures CleanLines(ReadLines(b).0)
    decreases |b.data| + 1 - b.posRead
  {
    if b.posRead < b.posWrite {
      var b1 := GetLine(b).1;
      LineReadIsClean(b);
      if b1.posRead < b1.posWrite {
        LinesReadAreClean(b1);
      }
    }
  }

  lemma SectionReadIsClean(b: Buf)
    requires b.Valid() && GetSection(b, false).0 != []
    ensures CleanName(GetSection(b, false).0) && Inside(GetSection(b, false).1)
  {
    var d := b.data;
    var (name, b1) := GetSection(b, false);
    var s := NextStart(d, b.posRead);
    var e := NextEnd(d, s);
    assert name == d[s + 1..e];
    forall i | 0 <= i < |name| - 1
      ensures !(name[i] == CLOSE_BRACKET && name[i + 1] == NEWLINE)
    {
      assert !IsEnd(d, s + 1 + i);
    }
    forall j | b1.posRead <= j < b1.posWrite && d[j] == OPEN_BRACKET
      ensures d[j - 1] != NEWLINE && j != b1.posRead
    {
      assert !IsStart(d, j);
      assert j > e + 1;
    }
  }

  lemma {:induction false} SectionsReadAreClean(b: Buf)
    requires b.Valid()
    ensures Clean(ReadSections(b))
    decreases |b.data| + 1 - b.posRead
  {
    var (name, b1) := GetSection(b, false);
    if name != [] {
      SectionAdvances(b, false);
      SectionReadIsClean(b);
      LinesReadAreClean(b1);
      SectionsReadAreClean(ReadLines(b1).1);
    }
  }

  // ---- the round trip -------------------------------------------------------------------------

  lemma {:induction false} DropBlankShortens(lines: seq<bytes>)
    ensures |DropBlank(lines)| <= |lines|
    ensures DropBlank(lines) == lines <==> NoLaterBlank(lines)
    decreases |lines|
  {
    if lines != [] {
      var skip := |lines| > 1 && lines[1] == [];
      DropBlankShortens(if skip then lines[2..] else lines[1..]);
      if !skip {
        assert lines == [lines[0]] + lines[1..];
        assert NoLaterBlank(lines) <==> NoLaterBlank(lines[1..]) by {
          if NoLaterBlank(lines[1..]) {
            assert forall i :: 2 <= i < |lines| ==> lines[i] == lines[1..][i - 1];
          }
        }
      }
    }
  }

  lemma {:induction false} NormalIsIdentity(secs: seq<SectionText>)
    ensures Normal(secs) == secs
       <==> (forall s <- secs :: NoLaterBlank(s.lines)) && (secs != [] ==> secs[|secs| - 1].lines != [])
  {
    if secs != [] {
      var sec, rest := secs[0], secs[1..];
      assert secs == [sec] + rest;
      DropBlankShortens(sec.lines);
      NormalIsIdentity(rest);
      assert rest != [] ==> secs[|secs| - 1] == rest[|rest| - 1];
    }
  }

  /** Printing the file and reading it from the start gives it back. */
  ghost predicate Survives(secs: seq<SectionText>) {
    ReadSections(Buf(Print(secs), 0, |Print(secs)|, 0)) == secs
  }

  /**
   * A file survives exactly when its names and lines are clean, no line but the first of a section
   * is blank, and the last section has a line.
   */
  lemma SectionFileRoundTrip(secs: seq<SectionText>)
    ensures Survives(secs) <==> Printable(secs)
  {
    var b := Buf(Print(secs), 0, |Print(secs)|, 0);
    SectionsReadAreClean(b);
    NormalIsIdentity(secs);
    if Clean(secs) {
      assert b.data[0..] == b.data;
      SectionsAreReadBack(b, secs);
    }
  }
}
