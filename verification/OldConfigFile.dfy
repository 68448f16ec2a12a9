/** What the merging of old files reads off a file that was written as sections of settings. */
module OldConfigFile {
  import opened Bytes
  import opened ConfigModel
  import opened Decimal

  datatype OldSection = OldSection(ns: string, settings: seq<(string, string)>)

  function PrintSettings(settings: seq<(string, string)>): string {
    if settings == [] then []
    else (settings[0].0 + ['='] + settings[0].1) + ['\n'] + PrintSettings(settings[1..])
  }

  function Header(ns: string): string {
    ['['] + ns + [']', '\n']
  }

  function Print(secs: seq<OldSection>): string {
    if secs == [] then [] else Header(secs[0].ns) + (PrintSettings(secs[0].settings) + Print(secs[1..]))
  }

  ghost predicate CleanText(s: string) {
    '=' !in s && '\n' !in s && '[' !in s
  }

  ghost predicate CleanName(ns: string) {
    ns != [] && ']' !in ns
  }

  ghost predicate CleanSettings(settings: seq<(string, string)>) {
    forall s <- settings :: CleanText(s.0) && CleanText(s.1)
  }

  /** A name alone, on its own line, reads as no setting. */
  ghost predicate Silent(ns: string) {
    Assignments(Header(ns), 0) == []
  }

  ghost predicate Readable(sec: OldSection) {
    if sec.settings == [] then Silent(sec.ns) else CleanName(sec.ns) && CleanSettings(sec.settings)
  }

  function Settings(ns: string, settings: seq<(string, string)>): seq<Assignment> {
    if settings == [] then []
    else [Assignment(ns, settings[0].0, Stripped(settings[0].1))] + Settings(ns, settings[1..])
  }

  function AllSettings(secs: seq<OldSection>): seq<Assignment> {
    if secs == [] then [] else Settings(secs[0].ns, secs[0].settings) + AllSettings(secs[1..])
  }

  // ---- lines -----------------------------------------------------------------------------------

  lemma SplitAtFirst(a: string, c: char, rest: string)
    requires c !in a
    ensures Split(a + [c] + rest, c) == [a] + Split(rest, c)
    ensures Split(a, c) == [a]
  {
    var s := a + [c] + rest;
    assert IndexOf(s, c, 0) == |a| by {
      assert s[|a|] == c && forall j :: 0 <= j < |a| ==> s[j] == a[j];
    }
    assert s[..|a|] == a && s[|a| + 1..] == rest;
  }

  /** A value between quotes loses these two, a lone quote becomes empty, any other value stays. */
  lemma EnclosingQuotesGo(value: string)
    ensures Stripped(['"'] + value + ['"']) == value
    ensures Stripped(['"']) == []
    ensures value == [] || value[0] != '"' || value[|value| - 1] != '"' ==> Stripped(value) == value
  {
  }

  function Count(s: string, c: char): nat {
    if s == [] then 0 else (if s[0] == c then 1 else 0) + Count(s[1..], c)
  }

  lemma {:induction false} CountAbsent(s: string, c: char, rest: string)
    requires c !in s
    ensures Count(s + rest, c) == Count(rest, c)
  {
    if s == [] {
      assert s + rest == rest;
    } else {
      CountAbsent(s[1..], c, rest);
      assert (s + rest)[1..] == s[1..] + rest;
    }
  }

  /** One part more than there are separators. */
  lemma {:induction false} SplitCounts(s: string, c: char)
    ensures |Split(s, c)| == Count(s, c) + 1
    decreases |s|
  {
    var i := IndexOf(s, c, 0);
    if i == -1 {
      CountAbsent(s, c, []);
      assert s + [] == s;
    } else {
      SplitCounts(s[i + 1..], c);
      CountAbsent(s[..i], c, s[i..]);
      assert s == s[..i] + s[i..] && s[i..][1..] == s[i + 1..];
    }
  }

  /** A line assigns something exactly when it has one equals sign. */
  lemma LineAssigns(ns: string, line: string)
    ensures LineAssignments(ns, [line]) != [] <==> Count(line, '=') == 1
  {
    SplitCounts(line, '=');
    assert [line][1..] == [];
  }

  lemma SettingIsRead(key: string, value: string)
    requires CleanText(key) && CleanText(value)
    ensures Split(key + ['='] + value, '=') == [key, value]
  {
    SplitAtFirst(key, '=', value);
    SplitAtFirst(value, '=', []);
  }

  lemma {:induction false} SettingsAreRead(ns: string, settings: seq<(string, string)>)
    requires CleanSettings(settings)
    ensures LineAssignments(ns, Split(PrintSettings(settings), '\n')) == Settings(ns, settings)
  {
    if settings == [] {
      SplitAtFirst([], '\n', []);
      SplitAtFirst([], '=', []);
      var blank: seq<string> := [[]];
      assert blank[1..] == [] && LineAssignments(ns, blank) == [];
    } else {
      var (key, value) := settings[0];
      var line, rest := key + ['='] + value, PrintSettings(settings[1..]);
      SettingsAreRead(ns, settings[1..]);
      SettingIsRead(key, value);
      SplitAtFirst(line, '\n', rest);
      assert ([line] + Split(rest, '\n'))[1..] == Split(rest, '\n');
    }
  }

  lemma {:induction false} NoBracketInSettings(settings: seq<(string, string)>)
    requires CleanSettings(settings)
    ensures '[' !in PrintSettings(settings)
    ensures settings != [] ==> PrintSettings(settings) != []
  {
    if settings != [] {
      NoBracketInSettings(settings[1..]);
    }
  }

  // ---- sections --------------------------------------------------------------------------------

  /** `sec` is printed at `p`, with the bracket behind its name at `q`, up to `e`, where the next section or the end is. */
  ghost predicate Laid(t: string, p: nat, q: nat, e: nat, sec: OldSection) {
    && p < q && q + 2 <= e <= |t|
    && t[p] == '[' && t[p + 1..q] == sec.ns && t[q] == ']' && t[q + 1] == '\n'
    && t[q + 2..e] == PrintSettings(sec.settings)
    && (e < |t| ==> t[e] == '[')
  }

  lemma HeaderIsLaid(t: string, p: nat, q: nat, ns: string, rest: string)
    requires p <= |t| && t[p..] == Header(ns) + rest && q == p + 1 + |ns|
    ensures q + 2 <= |t| && t[p] == '[' && t[p + 1..q] == ns && t[q] == ']' && t[q + 1] == '\n' && t[q + 2..] == rest
  {
    assert Header(ns) + rest == ['['] + (ns + ([']', '\n'] + rest));
    TailParts(t, p, p + 1, ['['], ns + ([']', '\n'] + rest));
    TailParts(t, p + 1, q, ns, [']', '\n'] + rest);
    TailParts(t, q, q + 2, [']', '\n'], rest);
    assert t[p..p + 1][0] == t[p] && t[q..q + 2][0] == t[q] && t[q..q + 2][1] == t[q + 1];
  }

  lemma PrintedIsLaid(t: string, p: nat, sec: OldSection, rest: string) returns (q: nat, e: nat)
    requires p <= |t| && t[p..] == Header(sec.ns) + (PrintSettings(sec.settings) + rest)
    requires rest != [] ==> rest[0] == '['
    ensures Laid(t, p, q, e, sec) && t[e..] == rest
  {
    q := p + 1 + |sec.ns|;
    e := q + 2 + |PrintSettings(sec.settings)|;
    HeaderIsLaid(t, p, q, sec.ns, PrintSettings(sec.settings) + rest);
    TailParts(t, q + 2, e, PrintSettings(sec.settings), rest);
    assert e < |t| ==> t[e..][0] == t[e];
  }

  lemma NameEndsAtBracket(t: string, p: nat, q: nat, e: nat, sec: OldSection)
    requires Laid(t, p, q, e, sec) && CleanName(sec.ns)
    ensures IndexOf(t, ']', p + 1) == q
  {
    assert forall j :: p + 1 <= j < q ==> t[j] == t[p + 1..q][j - p - 1];
  }

  lemma SettingsEndAtBracket(t: string, p: nat, q: nat, e: nat, sec: OldSection)
    requires Laid(t, p, q, e, sec) && CleanSettings(sec.settings)
    ensures IndexOf(t, '[', q + 2) == if e == |t| then -1 else e
    ensures sec.settings != [] ==> q + 2 < |t| && t[q + 2] != '['
  {
    NoBracketInSettings(sec.settings);
    assert forall j :: q + 2 <= j < e ==> t[j] == t[q + 2..e][j - (q + 2)];
  }

  /** The expression matches at `s` and up to `e`, and captures `c`. */
  ghost predicate Matches(t: string, s: nat, e: nat, c: Capture) {
    s < |t| && MatchAt(t, s).Some? && MatchAt(t, s).value.1 == e && CaptureAt(t, s) == c
  }

  lemma MatchParts(t: string, s: nat, q: nat, e: nat, c: Capture)
    requires s < |t| && MatchAt(t, s) == Some((q, e)) && t[s + 1..q] == c.ns && t[q + 2..e] == c.body
    ensures Matches(t, s, e, c)
  {
  }

  /** A section with settings is matched where it starts and captured up to the next one. */
  lemma SectionIsMatched(t: string, p: nat, q: nat, e: nat, sec: OldSection)
    requires Laid(t, p, q, e, sec) && CleanName(sec.ns) && CleanSettings(sec.settings) && sec.settings != []
    ensures Matches(t, p, e, Capture(sec.ns, PrintSettings(sec.settings)))
  {
    NameEndsAtBracket(t, p, q, e, sec);
    SettingsEndAtBracket(t, p, q, e, sec);
    MatchParts(t, p, q, e, Capture(sec.ns, PrintSettings(sec.settings)));
  }

  // ---- captures --------------------------------------------------------------------------------

  ghost predicate NoMatchBetween(t: string, p: nat, e: nat) {
    forall r: nat :: p <= r < e && r < |t| ==> MatchAt(t, r).None?
  }

  lemma CapturesUnfold(t: string, p: nat, s: nat, e: nat, c: Capture)
    requires p <= s && NoMatchBetween(t, p, s) && Matches(t, s, e, c)
    ensures Captures(t, p) == [c] + Captures(t, e)
  {
    assert NextMatch(t, p) == s;
  }

  lemma CapturesSkip(t: string, p: nat, e: nat)
    requires p <= e && NoMatchBetween(t, p, e)
    ensures Captures(t, p) == Captures(t, e)
  {
    assert NextMatch(t, p) == NextMatch(t, e);
  }

  lemma CapturesEnd(t: string, p: nat)
    requires NoMatchBetween(t, p, |t|)
    ensures Captures(t, p) == []
  {
  }

  // ---- sections without settings ---------------------------------------------------------------

  /** `h`, which ends with a bracket and a newline, stands from `p` to `e`, in front of an opening bracket or the end. */
  ghost predicate Stands(t: string, p: nat, e: nat, h: string) {
    && |h| >= 2 && h[|h| - 2] == ']' && h[|h| - 1] == '\n'
    && p <= e <= |t| && t[p..e] == h && (e < |t| ==> t[e] == '[')
  }

  lemma CharInPart(t: string, p: nat, e: nat, h: string, i: nat)
    requires Stands(t, p, e, h) && i < |h|
    ensures t[p + i] == h[i]
  {
    assert t[p..e][i] == t[p + i];
  }

  lemma SliceInPart(t: string, p: nat, e: nat, h: string, i: nat, j: nat, x: nat, y: nat)
    requires Stands(t, p, e, h) && i <= j <= |h| && x == p + i && y == p + j
    ensures t[x..y] == h[i..j]
  {
    forall m | 0 <= m < j - i
      ensures t[x..y][m] == h[i..j][m]
    {
      CharInPart(t, p, e, h, i + m);
    }
  }

  lemma IndexInPart(t: string, p: nat, e: nat, h: string, c: char, from: nat, x: nat)
    requires Stands(t, p, e, h) && from <= |h| && x == p + from
    ensures IndexOf(h, c, from) != -1 ==> IndexOf(t, c, x) == p + IndexOf(h, c, from)
    ensures IndexOf(h, c, from) == -1 && c == '[' ==> IndexOf(t, c, x) == if e < |t| then e else -1
  {
    forall j | p <= j < e
      ensures t[j] == h[j - p]
    {
      CharInPart(t, p, e, h, j - p);
    }
  }

  /** The name that starts at a bracket in such a part also ends in it. */
  lemma NameInPart(t: string, p: nat, e: nat, h: string, r: nat, x: nat)
    requires Stands(t, p, e, h) && r < |h| && x == p + r && h[r] == '['
    ensures var q := IndexOf(h, ']', r + 1);
            && r + 1 <= q <= |h| - 2 && IndexOf(t, ']', x + 1) == p + q && t[p + q + 1] == h[q + 1]
            && (q + 2 < |h| ==> t[p + q + 2] == h[q + 2])
  {
    var q := IndexOf(h, ']', r + 1);
    IndexInPart(t, p, e, h, ']', r + 1, x + 1);
    assert r + 1 <= q <= |h| - 2;
    CharInPart(t, p, e, h, q + 1);
    if q + 2 < |h| {
      CharInPart(t, p, e, h, q + 2);
    }
  }

  /** Where the expression matches in such a part does not depend on what surrounds it. */
  lemma MatchInPart(t: string, p: nat, e: nat, h: string, r: nat, x: nat)
    requires Stands(t, p, e, h) && r < |h| && x == p + r
    ensures MatchAt(t, x) == match MatchAt(h, r) case None => None case Some(m) => Some((p + m.0, p + m.1))
  {
    CharInPart(t, p, e, h, r);
    if h[r] == '[' {
      NameInPart(t, p, e, h, r, x);
      var q, y := IndexOf(h, ']', r + 1), IndexOf(t, ']', x + 1);
      if q + 2 < |h| {
        IndexInPart(t, p, e, h, '[', q + 2, y + 2);
      }
    }
  }

  lemma CaptureInPart(t: string, p: nat, e: nat, h: string, s: nat, d: nat, c: Capture, y: nat, z: nat)
    requires Stands(t, p, e, h) && Matches(h, s, d, c) && y == p + s && z == p + d
    ensures Matches(t, y, z, c)
  {
    var q := MatchAt(h, s).value.0;
    assert MatchAt(t, y) == Some((p + q, z)) by {
      MatchInPart(t, p, e, h, s, y);
    }
    SliceInPart(t, p, e, h, s + 1, q, y + 1, p + q);
    SliceInPart(t, p, e, h, q + 2, d, p + q + 2, z);
    MatchParts(t, y, p + q, z, c);
  }

  lemma NoMatchInPart(t: string, p: nat, e: nat, h: string, k: nat, s: nat)
    requires Stands(t, p, e, h) && k <= s <= |h| && NoMatchBetween(h, k, s)
    ensures NoMatchBetween(t, p + k, p + s)
  {
    forall r: nat | p + k <= r < p + s
      ensures MatchAt(t, r).None?
    {
      MatchInPart(t, p, e, h, r - p, r);
    }
  }

  lemma NoneLeftInPart(t: string, p: nat, e: nat, h: string, k: nat, x: nat)
    requires Stands(t, p, e, h) && k <= |h| && x == p + k && NextMatch(h, k) == -1
    ensures Captures(h, k) == [] && Captures(t, x) == Captures(t, e)
  {
    NoMatchInPart(t, p, e, h, k, |h|);
    CapturesEnd(h, k);
    CapturesSkip(t, x, e);
  }

  lemma NextInPart(t: string, p: nat, e: nat, h: string, k: nat, x: nat) returns (c: Capture, d: nat, z: nat)
    requires Stands(t, p, e, h) && k <= |h| && x == p + k && NextMatch(h, k) != -1
    ensures k < d <= |h| && z == p + d
    ensures Captures(h, k) == [c] + Captures(h, d) && Captures(t, x) == [c] + Captures(t, z)
  {
    var s := NextMatch(h, k);
    var y := p + s;
    c, d := CaptureAt(h, s), MatchAt(h, s).value.1;
    z := p + d;
    NoMatchInPart(t, p, e, h, k, s);
    CaptureInPart(t, p, e, h, s, d, c, y, z);
    CapturesUnfold(h, k, s, d, c);
    CapturesUnfold(t, x, y, z, c);
  }

  /** Such a part is captured by itself. */
  lemma {:induction false} PartIsCaptured(t: string, p: nat, e: nat, h: string, k: nat, x: nat)
    requires Stands(t, p, e, h) && k <= |h| && x == p + k
    ensures Captures(t, x) == Captures(h, k) + Captures(t, e)
    decreases |h| - k
  {
    if NextMatch(h, k) == -1 {
      NoneLeftInPart(t, p, e, h, k, x);
    } else {
      var c, d, z := NextInPart(t, p, e, h, k, x);
      PartIsCaptured(t, p, e, h, d, z);
      Shift([c], Captures(h, d), Captures(t, e));
    }
  }

  /** A name without a closing bracket at the end of a line is silent. */
  lemma UnbrokenNameIsSilent(ns: string)
    requires forall k :: 0 <= k < |ns| - 1 ==> !(ns[k] == ']' && ns[k + 1] == '\n')
    ensures Silent(ns)
  {
    var h := Header(ns);
    forall r: nat | r < |h|
      ensures MatchAt(h, r).None?
    {
      var q := IndexOf(h, ']', r + 1);
      if r + 1 < q < |h| - 2 {
        assert h[q] == ns[q - 1];
        assert h[q + 1] == if q < |ns| then ns[q] else ']';
      }
    }
    CapturesEnd(h, 0);
  }

  // ---- all sections ----------------------------------------------------------------------------

  lemma PrintStartsWithBracket(secs: seq<OldSection>)
    ensures secs != [] ==> Print(secs) != [] && Print(secs)[0] == '['
  {
  }

  /** What a section is captured as, wherever it stands. */
  ghost function SectionCaptures(sec: OldSection): seq<Capture> {
    if sec.settings == [] then Captures(Header(sec.ns), 0) else [Capture(sec.ns, PrintSettings(sec.settings))]
  }

  ghost function AllCaptures(secs: seq<OldSection>): seq<Capture> {
    if secs == [] then [] else SectionCaptures(secs[0]) + AllCaptures(secs[1..])
  }

  lemma EmptySectionIsCaptured(t: string, p: nat, q: nat, e: nat, sec: OldSection)
    requires Laid(t, p, q, e, sec) && sec.settings == []
    ensures Captures(t, p) == Captures(Header(sec.ns), 0) + Captures(t, e)
  {
    assert Stands(t, p, e, Header(sec.ns)) by {
      assert t[p..e] == [t[p]] + t[p + 1..q] + [t[q], t[q + 1]];
    }
    PartIsCaptured(t, p, e, Header(sec.ns), 0, p);
  }

  lemma FullSectionIsCaptured(t: string, p: nat, q: nat, e: nat, sec: OldSection)
    requires Laid(t, p, q, e, sec) && CleanName(sec.ns) && CleanSettings(sec.settings) && sec.settings != []
    ensures Captures(t, p) == [Capture(sec.ns, PrintSettings(sec.settings))] + Captures(t, e)
  {
    SectionIsMatched(t, p, q, e, sec);
    CapturesUnfold(t, p, p, e, Capture(sec.ns, PrintSettings(sec.settings)));
  }

  lemma FirstSectionIsCaptured(t: string, p: nat, sec: OldSection, rest: string) returns (e: nat)
    requires p <= |t| && t[p..] == Header(sec.ns) + (PrintSettings(sec.settings) + rest)
    requires (rest != [] ==> rest[0] == '[') && (sec.settings != [] ==> CleanName(sec.ns) && CleanSettings(sec.settings))
    ensures e <= |t| && t[e..] == rest
    ensures Captures(t, p) == SectionCaptures(sec) + Captures(t, e)
  {
    var q;
    q, e := PrintedIsLaid(t, p, sec, rest);
    if sec.settings == [] {
      EmptySectionIsCaptured(t, p, q, e, sec);
    } else {
      FullSectionIsCaptured(t, p, q, e, sec);
    }
  }

  ghost predicate FullSectionsAreClean(secs: seq<OldSection>) {
    forall s <- secs :: s.settings != [] ==> CleanName(s.ns) && CleanSettings(s.settings)
  }

  lemma {:induction false} SectionsAreCaptured(t: string, p: nat, secs: seq<OldSection>)
    requires p <= |t| && t[p..] == Print(secs) && FullSectionsAreClean(secs)
    ensures Captures(t, p) == AllCaptures(secs)
    decreases |secs|
  {
    if secs == [] {
      CapturesEnd(t, p);
    } else {
      PrintStartsWithBracket(secs[1..]);
      var e := FirstSectionIsCaptured(t, p, secs[0], Print(secs[1..]));
      SectionsAreCaptured(t, e, secs[1..]);
    }
  }

  lemma {:induction false} AssignmentsConcat(a: seq<Capture>, b: seq<Capture>)
    ensures CaptureAssignments(a + b) == CaptureAssignments(a) + CaptureAssignments(b)
  {
    if a == [] {
      assert a + b == b;
    } else {
      var lines := LineAssignments(a[0].ns, Split(a[0].body, '\n'));
      AssignmentsConcat(a[1..], b);
      assert (a + b)[0] == a[0] && (a + b)[1..] == a[1..] + b;
      Shift(lines, CaptureAssignments(a[1..]), CaptureAssignments(b));
    }
  }

  lemma SectionIsRead(sec: OldSection)
    requires sec.settings != [] && CleanSettings(sec.settings)
    ensures CaptureAssignments(SectionCaptures(sec)) == Settings(sec.ns, sec.settings)
  {
    SettingsAreRead(sec.ns, sec.settings);
    OneCapture(Capture(sec.ns, PrintSettings(sec.settings)));
  }

  lemma OneCapture(c: Capture)
    ensures CaptureAssignments([c]) == LineAssignments(c.ns, Split(c.body, '\n'))
  {
    assert [c][1..] == [];
  }

  lemma SamePrefix<T>(a: seq<T>, b: seq<T>, c: seq<T>)
    ensures a + b == a + c <==> b == c
  {
    assert (a + b)[|a|..] == b && (a + c)[|a|..] == c;
  }

  lemma LongerPart<T>(a: seq<T>, b: seq<T>, c: seq<T>)
    requires |b| >= |c|
    ensures a + b == c <==> a == [] && b == c
  {
    assert [] + b == b;
  }

  ghost predicate AllReadable(secs: seq<OldSection>) {
    forall s <- secs :: Readable(s)
  }

  lemma AllReadableCons(sec: OldSection, rest: seq<OldSection>)
    ensures AllReadable([sec] + rest) <==> Readable(sec) && AllReadable(rest)
    ensures FullSectionsAreClean([sec] + rest)
       <==> (sec.settings != [] ==> CleanName(sec.ns) && CleanSettings(sec.settings)) && FullSectionsAreClean(rest)
  {
    var all := [sec] + rest;
    assert all[0] == sec && forall s <- all :: s == sec || s in rest;
    assert forall s <- rest :: s in all;
  }

  lemma ReadingsCons(sec: OldSection, rest: seq<OldSection>)
    ensures CaptureAssignments(AllCaptures([sec] + rest))
         == CaptureAssignments(SectionCaptures(sec)) + CaptureAssignments(AllCaptures(rest))
    ensures AllSettings([sec] + rest) == Settings(sec.ns, sec.settings) + AllSettings(rest)
  {
    assert ([sec] + rest)[1..] == rest;
    AssignmentsConcat(SectionCaptures(sec), AllCaptures(rest));
  }

  /** Of one section and of those after it together no less is read than was set. */
  lemma OneMoreSection(sec: OldSection, read: seq<Assignment>, later: seq<Assignment>, settings: seq<Assignment>)
    requires sec.settings != [] ==> CleanName(sec.ns) && CleanSettings(sec.settings)
    requires read == CaptureAssignments(SectionCaptures(sec)) && |later| >= |settings|
    ensures |read + later| >= |Settings(sec.ns, sec.settings) + settings|
    ensures read + later == Settings(sec.ns, sec.settings) + settings <==> Readable(sec) && later == settings
  {
    if sec.settings == [] {
      assert Settings(sec.ns, sec.settings) + settings == settings;
      LongerPart(read, later, settings);
    } else {
      SectionIsRead(sec);
      SamePrefix(read, later, settings);
    }
  }

  /** Anything beyond the settings can only be read off the names of empty sections. */
  lemma {:induction false} CapturesAreSettings(secs: seq<OldSection>)
    requires FullSectionsAreClean(secs)
    ensures |CaptureAssignments(AllCaptures(secs))| >= |AllSettings(secs)|
    ensures CaptureAssignments(AllCaptures(secs)) == AllSettings(secs) <==> AllReadable(secs)
  {
    if secs != [] {
      var sec, rest := secs[0], secs[1..];
      assert secs == [sec] + rest;
      AllReadableCons(sec, rest);
      CapturesAreSettings(rest);
      ReadingsCons(sec, rest);
      OneMoreSection(sec, CaptureAssignments(SectionCaptures(sec)), CaptureAssignments(AllCaptures(rest)), AllSettings(rest));
    }
  }

  // ---- what can be read at all -----------------------------------------------------------------

  ghost predicate Sound(a: Assignment) {
    CleanName(a.ns) && CleanText(a.key) && CleanText(a.value)
  }

  lemma {:induction false} SplitParts(s: string, c: char)
    ensures forall part <- Split(s, c) :: c !in part && forall x <- part :: x in s
    decreases |s|
  {
    var i := IndexOf(s, c, 0);
    if i != -1 {
      SplitParts(s[i + 1..], c);
    }
  }

  lemma StrippedIsClean(value: string)
    ensures CleanText(Stripped(value)) <==> CleanText(value)
  {
    if Stripped(value) != value {
      var inner := Stripped(value);
      assert value == if |value| == 1 then ['"'] else ['"'] + inner + ['"'];
    }
  }

  lemma LineIsSound(ns: string, line: string)
    requires CleanName(ns) && '\n' !in line && '[' !in line && |Split(line, '=')| == 2
    ensures Sound(Assignment(ns, Split(line, '=')[0], Stripped(Split(line, '=')[1])))
  {
    var parts := Split(line, '=');
    SplitParts(line, '=');
    assert parts[0] in parts && parts[1] in parts;
    StrippedIsClean(parts[1]);
  }

  lemma {:induction false} LinesAreSound(ns: string, lines: seq<string>)
    requires CleanName(ns) && forall line <- lines :: '\n' !in line && '[' !in line
    ensures forall a <- LineAssignments(ns, lines) :: Sound(a)
  {
    if lines != [] {
      LinesAreSound(ns, lines[1..]);
      if |Split(lines[0], '=')| == 2 {
        LineIsSound(ns, lines[0]);
      }
    }
  }

  lemma {:induction false} CapturesAreSound(t: string, p: nat)
    ensures forall c <- Captures(t, p) :: CleanName(c.ns) && '[' !in c.body
    decreases |t| - p
  {
    var s := NextMatch(t, p);
    if s != -1 {
      CapturesAreSound(t, MatchAt(t, s).value.1);
    }
  }

  lemma {:induction false} CaptureAssignmentsAreSound(captures: seq<Capture>)
    requires forall c <- captures :: CleanName(c.ns) && '[' !in c.body
    ensures forall a <- CaptureAssignments(captures) :: Sound(a)
  {
    if captures != [] {
      CaptureAssignmentsAreSound(captures[1..]);
      SplitParts(captures[0].body, '\n');
      LinesAreSound(captures[0].ns, Split(captures[0].body, '\n'));
    }
  }

  /** Whatever the file holds, nothing that is read has an odd name, key or value. */
  lemma AssignmentsAreSound(t: string, p: nat)
    ensures forall a <- Assignments(t, p) :: Sound(a)
  {
    CapturesAreSound(t, p);
    CaptureAssignmentsAreSound(Captures(t, p));
  }

  lemma SettingsCons(ns: string, s: (string, string), rest: seq<(string, string)>)
    ensures Settings(ns, [s] + rest) == [Assignment(ns, s.0, Stripped(s.1))] + Settings(ns, rest)
  {
    assert ([s] + rest)[1..] == rest;
  }

  lemma {:induction false} SoundSettings(ns: string, settings: seq<(string, string)>)
    requires forall a <- Settings(ns, settings) :: Sound(a)
    ensures settings != [] ==> CleanName(ns)
    ensures CleanSettings(settings)
  {
    if settings != [] {
      var s, rest := settings[0], settings[1..];
      assert settings == [s] + rest;
      SettingsCons(ns, s, rest);
      assert Sound(Assignment(ns, s.0, Stripped(s.1)));
      StrippedIsClean(s.1);
      SoundSettings(ns, rest);
    }
  }

  lemma {:induction false} SoundSections(secs: seq<OldSection>)
    requires forall a <- AllSettings(secs) :: Sound(a)
    ensures FullSectionsAreClean(secs)
  {
    if secs != [] {
      SoundSections(secs[1..]);
      SoundSettings(secs[0].ns, secs[0].settings);
      assert secs == [secs[0]] + secs[1..];
    }
  }

  /** Reading the printed file gives the settings, in file order. */
  ghost predicate ReadsBack(secs: seq<OldSection>) {
    Assignments(Print(secs), 0) == AllSettings(secs)
  }

  /**
   * A file printed from sections of settings is read back if and only if each section with settings
   * has a non-empty name without a closing bracket and no equals sign, newline or opening bracket in
   * its keys and values, and the name of each section without settings is silent.
   */
  lemma PrintedFileIsRead(secs: seq<OldSection>)
    ensures ReadsBack(secs) <==> AllReadable(secs)
  {
    var t := Print(secs);
    assert t[0..] == t;
    if ReadsBack(secs) {
      AssignmentsAreSound(t, 0);
      SoundSections(secs);
    }
    if FullSectionsAreClean(secs) {
      SectionsAreCaptured(t, 0, secs);
      CapturesAreSettings(secs);
    }
  }
}
