/** What loading makes of a client file that was printed from names and lines. */
module ClientFile {
  import opened Bytes
  import opened ClientLoader
  import opened Records

  const SLASH: byte := 47

  /** A client as it is written: the names, white space around the header, its last byte, and the lines. */
  datatype Written = Written(before: bytes, plugin: bytes, protocol: bytes, last: byte, after: bytes, body: seq<bytes>)

  /** Tab, newline, vertical tab, form feed, carriage return and space. */
  const WHITE: set<byte> := {9, 10, 11, 12, 13, 32}

  ghost predicate Blank(l: bytes) {
    forall b <- l :: b in WHITE
  }

  function PrintHeader(w: Written): bytes {
    w.before + (([OPEN_BRACKET] + w.plugin + [SLASH] + w.protocol + [w.last]) + w.after)
  }

  /** Whatever closes the header, it is not white space. A closing bracket is usual, and not checked. */
  ghost predicate WellFormed(w: Written) {
    Blank(w.before) && Blank(w.after) && w.last !in WHITE
  }

  lemma SpaceIsWhite(b: byte)
    ensures IsSpace(b) <==> b in WHITE
  {
  }

  lemma {:induction false} TrimmedFront(before: bytes, l: bytes)
    requires Blank(before)
    ensures Trimmed(before + l) == Trimmed(l)
  {
    if before == [] {
      assert before + l == l;
    } else {
      SpaceIsWhite(before[0]);
      TrimmedFront(before[1..], l);
      assert (before + l)[1..] == before[1..] + l;
    }
  }

  lemma {:induction false} TrimmedBack(l: bytes, after: bytes)
    requires l != [] && l[0] !in WHITE && l[|l| - 1] !in WHITE && Blank(after)
    ensures Trimmed(l + after) == l
    decreases |after|
  {
    SpaceIsWhite(l[0]);
    SpaceIsWhite(l[|l| - 1]);
    if after == [] {
      assert l + after == l;
    } else {
      var n := |after| - 1;
      SpaceIsWhite(after[n]);
      TrimmedBack(l, after[..n]);
      assert (l + after)[..|l| + n] == l + after[..n];
    }
  }

  /** The line between the white space. */
  lemma HeaderIsTrimmed(w: Written)
    requires WellFormed(w)
    ensures Trimmed(PrintHeader(w)) == [OPEN_BRACKET] + w.plugin + [SLASH] + w.protocol + [w.last]
    ensures IsHeader(PrintHeader(w))
  {
    var core := [OPEN_BRACKET] + w.plugin + [SLASH] + w.protocol + [w.last];
    TrimmedFront(w.before, core + w.after);
    TrimmedBack(core, w.after);
  }

  /** Both names are read off a header exactly when the plugin's name has no slash and no backslash. */
  lemma HeaderNamesAreRead(w: Written)
    requires WellFormed(w)
    ensures HeaderNames(PrintHeader(w)) == (Text(w.plugin), Text(w.protocol))
       <==> SLASH !in w.plugin && BACKSLASH !in w.plugin
  {
    HeaderIsTrimmed(w);
    var line := Text(Trimmed(PrintHeader(w)));
    var tail := ['/'] + Text(w.protocol);
    assert Mid(line, 1, |line| - 2) == Text(w.plugin) + tail;
    TokenUnchanged(Text(w.plugin), '/', tail, true);
    TextMembers(w.plugin, SLASH, '/');
    TextMembers(w.plugin, BACKSLASH, '\\');
    if SLASH !in w.plugin && BACKSLASH !in w.plugin {
      PlainIsClosed(Text(w.plugin), '/');
      TokenOfClosed(Text(w.plugin), '/', tail, true);
    }
  }

  lemma TextMembers(l: bytes, b: byte, c: char)
    requires b as int as char == c
    ensures b in l <==> c in Text(l)
  {
    if b in l {
      var i :| 0 <= i < |l| && l[i] == b;
      assert Text(l)[i] == c;
    }
  }

  function PrintFile(ws: seq<Written>): seq<bytes> {
    if ws == [] then [] else [PrintHeader(ws[0])] + ws[0].body + PrintFile(ws[1..])
  }

  /** Behind white space, if any, comes an opening bracket. */
  ghost predicate OpensSection(l: bytes) {
    exists i: nat :: BracketAt(l, i)
  }

  ghost predicate BracketAt(l: bytes, i: nat) {
    i < |l| && l[i] == OPEN_BRACKET && Blank(l[..i])
  }

  lemma {:induction false} HeadersOpenSections(l: bytes)
    ensures IsHeader(l) <==> OpensSection(l)
  {
    if i: nat :| BracketAt(l, i) {
      TrimmedFront(l[..i], l[i..]);
      assert l == l[..i] + l[i..];
      TrimmedKeepsFirst(l[i..]);
    } else {
      NoBracketNoHeader(l);
    }
  }

  lemma {:induction false} TrimmedKeepsFirst(l: bytes)
    requires l != [] && l[0] !in WHITE
    ensures Trimmed(l) != [] && Trimmed(l)[0] == l[0]
    decreases |l|
  {
    SpaceIsWhite(l[0]);
    if |l| > 1 && IsSpace(l[|l| - 1]) {
      TrimmedKeepsFirst(l[..|l| - 1]);
    }
  }

  lemma {:induction false} NoBracketNoHeader(l: bytes)
    requires !OpensSection(l)
    ensures !IsHeader(l)
  {
    if l != [] {
      SpaceIsWhite(l[0]);
      if l[0] in WHITE {
        forall i: nat
          ensures !BracketAt(l[1..], i)
        {
          if BracketAt(l[1..], i) {
            assert l[..i + 1] == [l[0]] + l[1..][..i];
            assert BracketAt(l, i + 1);
          }
        }
        NoBracketNoHeader(l[1..]);
      } else {
        TrimmedKeepsFirst(l);
        assert !BracketAt(l, 0);
      }
    }
  }

  ghost predicate NoHeaders(lines: seq<bytes>) {
    forall l <- lines :: !OpensSection(l)
  }

  /** A header that is read as it was written, and lines that are none. */
  ghost predicate Readable(w: Written) {
    WellFormed(w) && SLASH !in w.plugin && BACKSLASH !in w.plugin && NoHeaders(w.body)
  }

  /** The plugin that the environment can load for these names. */
  predicate Provides(env: Environment, plugin: string, protocol: string) {
    plugin != [] && protocol != [] && plugin in env.protocolPlugins && plugin in env.loadable
  }

  /** The last registered protocol of this name. */
  ghost predicate IsLastOf(protocols: seq<string>, name: string, i: nat) {
    i < |protocols| && protocols[i] == name && name !in protocols[i + 1..]
  }

  /** One client for each section whose plugin is provided and whose protocol is registered, in order. */
  ghost predicate ClientsOf(env: Environment, ws: seq<Written>, clients: seq<LoadedClient>) {
    if ws == [] then clients == []
    else if Provides(env, Text(ws[0].plugin), Text(ws[0].protocol)) && Text(ws[0].protocol) in env.protocols then
      && clients != [] && IsLastOf(env.protocols, Text(ws[0].protocol), clients[0].protocol)
      && clients[0].config == Handed(Concat(ws[0].body)) && ClientsOf(env, ws[1..], clients[1..])
    else ClientsOf(env, ws[1..], clients)
  }

  /** The plugins of all sections that the environment provides, registered protocol or not. */
  function PluginsOf(env: Environment, ws: seq<Written>): seq<string> {
    if ws == [] then []
    else if Provides(env, Text(ws[0].plugin), Text(ws[0].protocol)) then [Text(ws[0].plugin)] + PluginsOf(env, ws[1..])
    else PluginsOf(env, ws[1..])
  }

  function WrittenSections(ws: seq<Written>): seq<Section> {
    if ws == [] then [] else [Section(PrintHeader(ws[0]), ws[0].body)] + WrittenSections(ws[1..])
  }

  /** Lines that are no headers belong to whatever stands in front of them. */
  lemma {:induction false} LinesInFront(pre: seq<bytes>, lines: seq<bytes>)
    requires NoHeaders(pre) && (lines != [] ==> IsHeader(lines[0]))
    ensures Sections(pre + lines) == Sections(lines) && Body(pre + lines) == pre
  {
    if pre == [] {
      assert pre + lines == lines;
    } else {
      HeadersOpenSections(pre[0]);
      LinesInFront(pre[1..], lines);
      assert (pre + lines)[1..] == pre[1..] + lines;
      SectionsStep(pre + lines);
      assert pre == [pre[0]] + pre[1..];
    }
  }

  lemma SectionInFront(w: Written, rest: seq<bytes>)
    requires Readable(w) && (rest != [] ==> IsHeader(rest[0]))
    ensures var lines := [PrintHeader(w)] + w.body + rest;
            IsHeader(lines[0]) && Sections(lines) == [Section(PrintHeader(w), w.body)] + Sections(rest)
  {
    var lines := [PrintHeader(w)] + w.body + rest;
    HeaderIsTrimmed(w);
    LinesInFront(w.body, rest);
    SectionsStep(lines);
    assert lines[0] == PrintHeader(w) && lines[1..] == w.body + rest;
  }

  lemma {:induction false} PrintedSections(ws: seq<Written>)
    requires forall w <- ws :: Readable(w)
    ensures Sections(PrintFile(ws)) == WrittenSections(ws)
    ensures PrintFile(ws) != [] ==> IsHeader(PrintFile(ws)[0])
  {
    if ws != [] {
      PrintedSections(ws[1..]);
      SectionInFront(ws[0], PrintFile(ws[1..]));
    }
  }

  lemma HeaderIsAccepted(env: Environment, w: Written)
    requires Readable(w)
    ensures PluginLoads(env, PrintHeader(w)) <==> Provides(env, Text(w.plugin), Text(w.protocol))
    ensures Accepted(env, PrintHeader(w)).Some? <==> PluginLoads(env, PrintHeader(w)) && Text(w.protocol) in env.protocols
    ensures Accepted(env, PrintHeader(w)).Some? ==> IsLastOf(env.protocols, Text(w.protocol), Accepted(env, PrintHeader(w)).value)
  {
    HeaderNamesAreRead(w);
  }

  lemma FirstSectionIsLoaded(env: Environment, w: Written, rest: seq<Section>)
    requires Readable(w)
    ensures var provided := Provides(env, Text(w.plugin), Text(w.protocol));
            var all := [Section(PrintHeader(w), w.body)] + rest;
            && EnabledBy(env, all) == (if provided then [Text(w.plugin)] else []) + EnabledBy(env, rest)
            && if provided && Text(w.protocol) in env.protocols then
                 && Expected(env, all) != [] && IsLastOf(env.protocols, Text(w.protocol), Expected(env, all)[0].protocol)
                 && Expected(env, all)[0].config == Handed(Concat(w.body)) && Expected(env, all)[1..] == Expected(env, rest)
               else Expected(env, all) == Expected(env, rest)
  {
    var s := Section(PrintHeader(w), w.body);
    HeaderIsAccepted(env, w);
    ExpectedStep(env, s, rest);
    HeaderNamesAreRead(w);
    assert [] + Expected(env, rest) == Expected(env, rest);
  }

  lemma {:induction false} WrittenSectionsAreLoaded(env: Environment, ws: seq<Written>)
    requires forall w <- ws :: Readable(w)
    ensures ClientsOf(env, ws, Expected(env, WrittenSections(ws)))
    ensures EnabledBy(env, WrittenSections(ws)) == PluginsOf(env, ws)
  {
    if ws != [] {
      WrittenSectionsAreLoaded(env, ws[1..]);
      FirstSectionIsLoaded(env, ws[0], WrittenSections(ws[1..]));
      assert [] + PluginsOf(env, ws[1..]) == PluginsOf(env, ws[1..]);
    }
  }

  /**
   * A file of readable sections, behind any lines that are no headers, loads the clients and enables
   * the plugins that the printed names stand for in the environment.
   */
  lemma PrintedFileIsLoaded(env: Environment, pre: seq<bytes>, ws: seq<Written>)
    requires NoHeaders(pre) && forall w <- ws :: Readable(w)
    ensures ClientsOf(env, ws, Expected(env, Sections(pre + PrintFile(ws))))
    ensures EnabledBy(env, Sections(pre + PrintFile(ws))) == PluginsOf(env, ws)
  {
    PrintedSections(ws);
    LinesInFront(pre, PrintFile(ws));
    WrittenSectionsAreLoaded(env, ws);
  }

  /** A header without a slash names no protocol, and one without anything in it no plugin either. */
  lemma HeaderWithoutSlash(before: bytes, name: bytes, last: byte, after: bytes)
    requires Blank(before) && Blank(after) && last !in WHITE && SLASH !in name && BACKSLASH !in name
    ensures HeaderNames(before + (([OPEN_BRACKET] + name + [last]) + after)) == (Text(name), [])
  {
    var core := [OPEN_BRACKET] + name + [last];
    TrimmedFront(before, core + after);
    TrimmedBack(core, after);
    var line := Text(core);
    assert Mid(line, 1, |line| - 2) == Text(name) + [];
    TextMembers(name, SLASH, '/');
    TextMembers(name, BACKSLASH, '\\');
    PlainIsClosed(Text(name), '/');
    TokenOfClosed(Text(name), '/', [], true);
    PlainIsTaken(Text(name));
  }
}
