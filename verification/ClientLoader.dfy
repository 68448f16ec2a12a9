/** Loading clients from the old line-based file, one section per client. */
module ClientLoader {
  import opened Bytes
  import opened BufferModel
  import opened Buffers
  import opened Decimal
  import opened Records

  /** The plugins known as protocol plugins, those that load, and the names of the registered protocols. */
  datatype Environment = Environment(protocolPlugins: set<string>, loadable: set<string>, protocols: seq<string>)

  /** A client of the protocol with this index, and the buffer that it reads its data from. */
  datatype LoadedClient = LoadedClient(protocol: nat, config: Buf)

  datatype Section = Section(header: bytes, body: seq<bytes>)

  // ---- headers ---------------------------------------------------------------------------------

  predicate IsSpace(b: byte) {
    TAB <= b <= CARRIAGE_RETURN || b == SPACE
  }

  function Trimmed(l: bytes): bytes {
    if l == [] then []
    else if IsSpace(l[0]) then Trimmed(l[1..])
    else if IsSpace(l[|l| - 1]) then Trimmed(l[..|l| - 1])
    else l
  }

  function Text(l: bytes): string {
    seq(|l|, i requires 0 <= i < |l| => l[i] as int as char)
  }

  predicate IsHeader(l: bytes) {
    var line := Trimmed(l);
    line != [] && line[0] == OPEN_BRACKET
  }

  /** The plugin and the protocol that a header names. */
  function HeaderNames(l: bytes): (string, string) {
    var line := Text(Trimmed(l));
    Token(Mid(line, 1, |line| - 2), '/', true)
  }

  predicate PluginLoads(env: Environment, l: bytes) {
    var (plugin, protocol) := HeaderNames(l);
    plugin != [] && protocol != [] && plugin in env.protocolPlugins && plugin in env.loadable
  }

  predicate NotAProtocol(env: Environment, l: bytes) {
    var (plugin, protocol) := HeaderNames(l);
    plugin != [] && protocol != [] && plugin !in env.protocolPlugins
  }

  /** The protocol whose client is made: the last one registered under the name. */
  function Accepted(env: Environment, l: bytes): Option<nat> {
    if !PluginLoads(env, l) then None
    else
      var i := LastIndexOf(env.protocols, HeaderNames(l).1);
      if i == -1 then None else Some(i)
  }

  /** What a client is handed: all the lines, with the write position one short of the end. */
  function Handed(data: bytes): Buf {
    EMPTY.Append(data).SetWritePos((|data| - 1) % WORD)
  }

  // ---- the declarative reading -----------------------------------------------------------------

  /** The lines up to the next header. */
  function Body(lines: seq<bytes>): seq<bytes> {
    if lines == [] || IsHeader(lines[0]) then [] else [lines[0]] + Body(lines[1..])
  }

  function Sections(lines: seq<bytes>): seq<Section> {
    if lines == [] then []
    else (if IsHeader(lines[0]) then [Section(lines[0], Body(lines[1..]))] else []) + Sections(lines[1..])
  }

  function Expected(env: Environment, sections: seq<Section>): seq<LoadedClient> {
    if sections == [] then []
    else
      var s := sections[0];
      var accepted := Accepted(env, s.header);
      (if accepted.Some? then [LoadedClient(accepted.value, Handed(Concat(s.body)))] else []) + Expected(env, sections[1..])
  }

  /** Loading a plugin enables it, whether or not its protocol is registered. */
  function EnabledBy(env: Environment, sections: seq<Section>): seq<string> {
    if sections == [] then []
    else
      var header := sections[0].header;
      (if PluginLoads(env, header) then [HeaderNames(header).0] else []) + EnabledBy(env, sections[1..])
  }

  // ---- the one-pass reading --------------------------------------------------------------------

  /** The clients and plugins so far, the client whose lines are being gathered, and the lines gathered. */
  datatype Progress = Progress(clients: seq<LoadedClient>, enabled: seq<string>, client: Option<nat>, data: bytes)

  const NOTHING := Progress([], [], None, [])

  function Finished(client: Option<nat>, data: bytes): seq<LoadedClient> {
    if client.Some? then [LoadedClient(client.value, Handed(data))] else []
  }

  function EnabledAt(env: Environment, l: bytes): seq<string> {
    if PluginLoads(env, l) then [HeaderNames(l).0] else []
  }

  /** A header ends the pending client; what was gathered for nobody may stay, but not for the next client. */
  function AtLine(env: Environment, p: Progress, l: bytes): Progress {
    if !IsHeader(l) then p.(data := p.data + l)
    else
      var client := Accepted(env, l);
      Progress(p.clients + Finished(p.client, p.data), p.enabled + EnabledAt(env, l), client,
               if p.client.Some? || client.Some? || NotAProtocol(env, l) then [] else p.data)
  }

  function AtLines(env: Environment, p: Progress, lines: seq<bytes>): Progress
    decreases lines
  {
    if lines == [] then p else AtLines(env, AtLine(env, p, lines[0]), lines[1..])
  }

  function AllClients(p: Progress): seq<LoadedClient> {
    p.clients + Finished(p.client, p.data)
  }

  lemma SectionsStep(lines: seq<bytes>)
    requires lines != []
    ensures Sections(lines) == (if IsHeader(lines[0]) then [Section(lines[0], Body(lines[1..]))] else []) + Sections(lines[1..])
    ensures IsHeader(lines[0]) ==> Body(lines) == []
    ensures !IsHeader(lines[0]) ==> Body(lines) == [lines[0]] + Body(lines[1..]) && Sections(lines) == Sections(lines[1..])
    ensures !IsHeader(lines[0]) ==> Concat(Body(lines)) == lines[0] + Concat(Body(lines[1..]))
  {
    if !IsHeader(lines[0]) {
      assert ([lines[0]] + Body(lines[1..]))[1..] == Body(lines[1..]);
    }
  }

  lemma ExpectedStep(env: Environment, s: Section, rest: seq<Section>)
    ensures Expected(env, [s] + rest) == Finished(Accepted(env, s.header), Concat(s.body)) + Expected(env, rest)
    ensures EnabledBy(env, [s] + rest) == EnabledAt(env, s.header) + EnabledBy(env, rest)
  {
    assert ([s] + rest)[1..] == rest;
  }

  /** The pending client takes the lines up to the next header, the rest is read section by section. */
  lemma {:induction false} OnePassIsSectionwise(env: Environment, p: Progress, lines: seq<bytes>)
    ensures AllClients(AtLines(env, p, lines))
         == p.clients + (Finished(p.client, p.data + Concat(Body(lines))) + Expected(env, Sections(lines)))
    ensures AtLines(env, p, lines).enabled == p.enabled + EnabledBy(env, Sections(lines))
    decreases lines
  {
    if lines == [] {
      assert p.data + [] == p.data;
    } else {
      var l, rest, next := lines[0], lines[1..], AtLine(env, p, lines[0]);
      OnePassIsSectionwise(env, next, rest);
      SectionsStep(lines);
      if IsHeader(l) {
        ExpectedStep(env, Section(l, Body(rest)), Sections(rest));
        assert p.data + Concat([]) == p.data;
        assert next.client.Some? ==> next.data + Concat(Body(rest)) == Concat(Body(rest));
        Shift(p.clients, Finished(p.client, p.data), Expected(env, Sections(lines)));
        Shift(p.enabled, EnabledAt(env, l), EnabledBy(env, Sections(rest)));
      } else {
        Shift(p.data, l, Concat(Body(rest)));
      }
    }
  }

  /** One pass over the file loads exactly the clients of the accepted sections, each with its own lines. */
  lemma LoadIsSectionwise(env: Environment, lines: seq<bytes>)
    ensures AllClients(AtLines(env, NOTHING, lines)) == Expected(env, Sections(lines))
    ensures AtLines(env, NOTHING, lines).enabled == EnabledBy(env, Sections(lines))
  {
    OnePassIsSectionwise(env, NOTHING, lines);
  }

  function Preamble(lines: seq<bytes>): seq<bytes> {
    Body(lines)
  }

  function Lines(sections: seq<Section>): seq<bytes> {
    if sections == [] then [] else [sections[0].header] + sections[0].body + Lines(sections[1..])
  }

  /** Every line belongs to one section, or stands in front of the first header. */
  lemma {:induction false} SectionsCoverTheFile(lines: seq<bytes>)
    ensures lines == Preamble(lines) + Lines(Sections(lines))
    ensures forall s <- Sections(lines) :: IsHeader(s.header) && forall l <- s.body :: !IsHeader(l)
  {
    if lines != [] {
      var l, rest := lines[0], lines[1..];
      SectionsCoverTheFile(rest);
      BodyHasNoHeader(rest);
      SectionsStep(lines);
      LinesStep(Section(l, Body(rest)), Sections(rest));
      Shift([l], Body(rest), Lines(Sections(rest)));
      assert lines == [l] + rest;
    }
  }

  lemma LinesStep(s: Section, rest: seq<Section>)
    ensures Lines([s] + rest) == [s.header] + s.body + Lines(rest)
  {
    assert ([s] + rest)[1..] == rest;
  }

  lemma {:induction false} BodyHasNoHeader(lines: seq<bytes>)
    ensures forall l <- Body(lines) :: !IsHeader(l)
  {
    if lines != [] && !IsHeader(lines[0]) {
      BodyHasNoHeader(lines[1..]);
    }
  }

  /**
   * A client sees the raw lines of its section with the write position one byte short of the end,
   * exactly when there is a line; without any, the write position wraps around.
   */
  lemma HandedIsOneShort(body: seq<bytes>)
    requires (forall l <- body :: l != []) && |Concat(body)| < INT_LIMIT
    ensures var b, data := Handed(Concat(body)), Concat(body);
            && b.data == data && b.posRead == 0 && b.startSection == 0
            && (b.posWrite + 1 == |data| <==> body != [])
            && (body == [] ==> b.posWrite == WORD - 1)
  {
    if body != [] {
      assert Concat(body) != [] by {
        assert body[0] in body;
      }
    }
  }

  // ---- the loader ------------------------------------------------------------------------------

  /**
   * Nothing is loaded from a file that cannot be opened. `held` says whether there were clients
   * before, which is enough for success.
   */
  method LoadOld(env: Environment, file: Option<seq<bytes>>, held: bool)
    returns (clients: seq<LoadedClient>, enabled: seq<string>, ok: bool)
    ensures file.None? ==> clients == [] && enabled == [] && !ok
    ensures file.Some? ==> clients == Expected(env, Sections(file.value)) && enabled == EnabledBy(env, Sections(file.value))
    ensures file.Some? ==> (ok <==> held || clients != [])
  {
    if file.None? {
      return [], [], false;
    }
    clients, enabled := LoadLines(env, file.value);
    ok := held || |clients| > 0;
  }

  /** The loop over the lines, which include their newlines, so that none is empty. */
  method LoadLines(env: Environment, lines: seq<bytes>) returns (clients: seq<LoadedClient>, enabled: seq<string>)
    ensures clients == Expected(env, Sections(lines))
    ensures enabled == EnabledBy(env, Sections(lines))
  {
    clients, enabled := [], [];
    var cfg := new Buffer(0);
    var client: Option<nat> := None;
    for n := 0 to |lines|
      invariant fresh(cfg) && cfg.View() == EMPTY.Append(cfg.data)
      invariant AtLines(env, Progress(clients, enabled, client, cfg.data), lines[n..]) == AtLines(env, NOTHING, lines)
    {
      assert lines[n..][1..] == lines[n + 1..];
      clients, enabled, client := ReadLine(env, lines[n], clients, enabled, client, cfg);
    }
    if client.Some? {
      cfg.SetReadPos(0);
    }
    clients := Finish(clients, client, cfg);
    LoadIsSectionwise(env, lines);
  }

  /** The body of the loop over the lines. */
  method ReadLine(env: Environment, l: bytes, clients0: seq<LoadedClient>, enabled0: seq<string>, client0: Option<nat>, cfg: Buffer)
    returns (clients: seq<LoadedClient>, enabled: seq<string>, client: Option<nat>)
    requires cfg.View() == EMPTY.Append(cfg.data)
    modifies cfg
    ensures cfg.View() == EMPTY.Append(cfg.data)
    ensures Progress(clients, enabled, client, cfg.data) == AtLine(env, Progress(clients0, enabled0, client0, old(cfg.data)), l)
  {
    clients, enabled, client := clients0, enabled0, client0;
    if IsHeader(l) {
      clients := Finish(clients, client, cfg);
      client, enabled := ReadHeader(env, l, enabled, cfg);
    } else {
      cfg.Append(l);
    }
  }

  /** A pending client reads its data from the buffer and is added. */
  method Finish(clients0: seq<LoadedClient>, client: Option<nat>, cfg: Buffer) returns (clients: seq<LoadedClient>)
    requires cfg.View() == EMPTY.Append(cfg.data)
    modifies cfg
    ensures clients == clients0 + Finished(client, old(cfg.data))
    ensures cfg.View() == if client.Some? then EMPTY else old(cfg.View())
  {
    clients := clients0;
    if client.Some? {
      cfg.SetWritePos((|cfg.data| - 1) % WORD);
      clients := clients + [LoadedClient(client.value, Buf(cfg.data, cfg.posRead, cfg.posWrite, cfg.startSection))];
      cfg.Clear();
    }
  }

  /** The lines gathered so far are thrown away for a client that is made, and for a plugin of another kind. */
  method ReadHeader(env: Environment, l: bytes, enabled0: seq<string>, cfg: Buffer)
    returns (client: Option<nat>, enabled: seq<string>)
    modifies cfg
    ensures client == Accepted(env, l)
    ensures enabled == enabled0 + EnabledAt(env, l)
    ensures cfg.View() == if client.Some? || NotAProtocol(env, l) then EMPTY else old(cfg.View())
  {
    client, enabled := None, enabled0;
    var (plugin, protocol) := HeaderNames(l);
    if |plugin| == 0 || |protocol| == 0 {
      return;
    }
    if plugin !in env.protocolPlugins {
      cfg.Clear();
      return;
    }
    if plugin !in env.loadable {
      return;
    }
    enabled := enabled + [plugin];
    client := LastProtocol(env, protocol);
    if client.Some? {
      cfg.Clear();
    }
  }

  /** The loop over the registered protocols: a later one of the same name replaces the client. */
  method LastProtocol(env: Environment, name: string) returns (client: Option<nat>)
    ensures client == var i := LastIndexOf(env.protocols, name); if i == -1 then None else Some(i)
  {
    client := None;
    for it := 0 to |env.protocols|
      invariant if client.Some? then client.value < it && env.protocols[client.value] == name
                else name !in env.protocols[..it]
      invariant client.Some? ==> forall j :: client.value < j < it ==> env.protocols[j] != name
    {
      if env.protocols[it] == name {
        client := Some(it);
      }
    }
  }
}
