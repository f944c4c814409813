/** `applyResolvConf` of cmd/void-init/network.go: rendering /etc/resolv.conf, and reading it back. */
module ResolvConf {
  import opened Options
  import opened Strings
  import opened ManagedFile

  function ServerLine(server: string): string {
    "nameserver " + server
  }

  function SearchLine(search: seq<string>): string {
    "search " + Join(search, ' ')
  }

  function ServerLines(servers: seq<string>): seq<string> {
    seq(|servers|, i requires 0 <= i < |servers| => ServerLine(servers[i]))
  }

  function SearchLines(search: seq<string>): seq<string> {
    if search == [] then [] else [SearchLine(search)]
  }

  /** The part that is rendered before the marker. */
  function Body(servers: seq<string>, search: seq<string>): string {
    Unlines(SearchLines(search) + ServerLines(servers))
  }

  function Rendered(servers: seq<string>, search: seq<string>): string {
    Body(servers, search) + MARKER + "\n"
  }

  /** The file after `applyResolvConf`: untouched without nameservers. */
  function After(existing: Option<string>, servers: seq<string>, search: seq<string>): Option<string> {
    if servers == [] then existing else Some(Managed(existing, Rendered(servers, search)))
  }

  /** The rendering loop. */
  method RenderBody(servers: seq<string>, search: seq<string>) returns (sb: string)
    ensures sb == Body(servers, search)
  {
    sb := "";
    if search != [] {
      sb := SearchLine(search) + "\n";
      assert sb == SearchLine(search) + ['\n'] + "";
    }
    ghost var head := SearchLines(search);
    assert head + ServerLines([]) == head;
    for i := 0 to |servers|
      invariant sb == Unlines(head + ServerLines(servers[..i]))
    {
      OneMoreServer(head, servers, i);
      sb := sb + (ServerLine(servers[i]) + "\n");
    }
    assert servers[..|servers|] == servers;
  }

  method ApplyResolvConf(file: File, servers: seq<string>, search: seq<string>, faults: Faults) returns (ok: bool)
    modifies file
    ensures ok == (servers == [] || (!faults.readFails && faults.write.Written? && !faults.chmodFails))
    ensures file.content ==
            if servers == [] || faults.readFails then old(file.content)
            else AfterWrite(old(file.content), Managed(old(file.content), Rendered(servers, search)), faults.write)
    ensures ok ==> file.content == After(old(file.content), servers, search)
  {
    if servers == [] {
      return true;
    }
    var body := RenderBody(servers, search);
    ok := file.WriteManagedFile(body + MARKER + "\n", faults);
  }

  lemma OneMoreServer(head: seq<string>, servers: seq<string>, i: nat)
    requires i < |servers|
    ensures Unlines(head + ServerLines(servers[..i + 1])) ==
            Unlines(head + ServerLines(servers[..i])) + (ServerLine(servers[i]) + "\n")
  {
    var before, line := head + ServerLines(servers[..i]), ServerLine(servers[i]);
    assert head + ServerLines(servers[..i + 1]) == before + [line];
    UnlinesConcat(before, [line]);
    assert Unlines([line]) == line + "\n";
  }

  // ---------------------------------------------------------------- reading it back

  predicate IsServer(line: string) { |line| >= 11 && line[..11] == "nameserver " }

  predicate IsSearch(line: string) { |line| >= 7 && line[..7] == "search " }

  /** The nameserver entries of the lines, in order. */
  function Servers(lines: seq<string>): seq<string> {
    if lines == [] then []
    else
      var last := lines[|lines| - 1];
      Servers(lines[..|lines| - 1]) + if IsServer(last) then [last[11..]] else []
  }

  /** The search list: that of the last search line. */
  function Search(lines: seq<string>): seq<string> {
    if lines == [] then []
    else
      var last := lines[|lines| - 1];
      if IsSearch(last) then Split(last[7..], ' ') else Search(lines[..|lines| - 1])
  }

  /** What a reader of the file's managed part sees. */
  function ReadServers(file: string): seq<string> { Servers(Split(BeforeMarker(file), '\n')) }

  function ReadSearch(file: string): seq<string> { Search(Split(BeforeMarker(file), '\n')) }

  /** Non-empty and without white space. */
  predicate Word(s: string) {
    s != "" && ' ' !in s && '\n' !in s && '\t' !in s
  }

  predicate Words(s: seq<string>) {
    forall i | 0 <= i < |s| :: Word(s[i])
  }

  // ---------------------------------------------------------------- round trip

  lemma ServerLineReads(server: string)
    ensures IsServer(ServerLine(server)) && ServerLine(server)[11..] == server && !IsSearch(ServerLine(server))
  {
    assert ServerLine(server)[0] == 'n';
    var line := ServerLine(server);
    assert |line| >= 11 && line[..7][0] == line[0] && "search "[0] == 's';
  }

  lemma SearchLineReads(search: seq<string>)
    requires search != [] && Words(search)
    ensures var line := SearchLine(search); IsSearch(line) && !IsServer(line) && Split(line[7..], ' ') == search
  {
    var line := SearchLine(search);
    assert line[..7] == "search " && line[7..] == Join(search, ' ');
    if |line| >= 11 { assert line[..11][0] == line[0] == 's'; }
    assert "nameserver "[0] == 'n';
    SplitJoin(search, ' ');
  }

  lemma ReadLast(lines: seq<string>, last: string)
    ensures Servers(lines + [last]) == Servers(lines) + if IsServer(last) then [last[11..]] else []
    ensures Search(lines + [last]) == if IsSearch(last) then Split(last[7..], ' ') else Search(lines)
  {
    assert (lines + [last])[..|lines|] == lines;
  }

  lemma OneServerLine(head: seq<string>, servers: seq<string>)
    requires servers != []
    ensures head + ServerLines(servers) ==
            head + ServerLines(servers[..|servers| - 1]) + [ServerLine(servers[|servers| - 1])]
  {
  }

  lemma {:induction false} ServersRead(head: seq<string>, servers: seq<string>)
    ensures Servers(head + ServerLines(servers)) == Servers(head) + servers
    ensures Search(head + ServerLines(servers)) == Search(head)
  {
    if servers == [] {
      assert head + ServerLines(servers) == head;
    } else {
      var init, last := servers[..|servers| - 1], servers[|servers| - 1];
      ServersRead(head, init);
      ServerLineReads(last);
      OneServerLine(head, servers);
      ReadLast(head + ServerLines(init), ServerLine(last));
      assert servers == init + [last];
    }
  }

  lemma LinesRead(servers: seq<string>, search: seq<string>)
    requires Words(search)
    ensures var lines := SearchLines(search) + ServerLines(servers);
            Servers(lines + [""]) == servers && Search(lines + [""]) == search
  {
    var lines := SearchLines(search) + ServerLines(servers);
    if search != [] { SearchLineReads(search); }
    ServersRead(SearchLines(search), servers);
    assert (lines + [""])[..|lines|] == lines;
  }

  lemma {:induction false} JoinHasNo(words: seq<string>, sep: char, c: char)
    requires c != sep && forall i | 0 <= i < |words| :: c !in words[i]
    ensures c !in Join(words, sep)
  {
    if |words| > 1 {
      JoinHasNo(words[1..], sep, c);
    }
  }

  lemma BodySplits(servers: seq<string>, search: seq<string>)
    requires Words(servers) && Words(search)
    ensures Split(Body(servers, search), '\n') == SearchLines(search) + ServerLines(servers) + [""]
  {
    JoinHasNo(search, ' ', '\n');
    var lines := SearchLines(search) + ServerLines(servers);
    forall i | 0 <= i < |lines| ensures '\n' !in lines[i] {
      if i >= |SearchLines(search)| {
        var k := i - |SearchLines(search)|;
        assert lines[i] == ServerLine(servers[k]) && Word(servers[k]);
      }
    }
    SplitUnlines(lines);
  }

  /** Line by line, what is rendered: the search list first, if there is one, then the nameservers. */
  lemma RenderedLines(servers: seq<string>, search: seq<string>, i: nat)
    requires Words(servers) && Words(search)
    ensures var lines := Split(Body(servers, search), '\n');
            var first := if search == [] then 0 else 1;
            && |lines| == first + |servers| + 1
            && (search != [] ==> lines[0] == "search " + Join(search, ' '))
            && (i < |servers| ==> lines[first + i] == "nameserver " + servers[i])
            && lines[|lines| - 1] == ""
  {
    BodySplits(servers, search);
  }

  lemma ReadsBody(existing: Option<string>, servers: seq<string>, search: seq<string>)
    requires servers != []
    ensures var body := Body(servers, search);
            BeforeMarker(Managed(existing, Rendered(servers, search))) ==
            if Contains(body, MARKER) then BeforeMarker(body) else body
  {
    UnlinesEnd(SearchLines(search) + ServerLines(servers));
    MarkerAfterBody(Body(servers, search), "\n");
    BeforeMarkerOfManaged(existing, Rendered(servers, search));
  }

  /** Rendering what was read out of some lines takes no more room than those lines. */
  lemma ServerLineWrites(line: string)
    requires IsServer(line)
    ensures ServerLine(line[11..]) == line && !IsSearch(line)
  {
    assert line[..11] + line[11..] == line;
    assert line[..7][0] == line[..11][0] == "nameserver "[0];
  }

  lemma SearchLineWrites(line: string)
    requires IsSearch(line)
    ensures SearchLines(Split(line[7..], ' ')) == [line]
  {
    JoinSplit(line[7..], ' ');
    assert line[..7] + line[7..] == line;
  }

  lemma SizeOfOne(line: string)
    ensures Size([line]) == |line| + 1
  {
    assert [line][..0] == [];
  }

  lemma ServerLinesLast(servers: seq<string>, last: string)
    ensures Size(ServerLines(servers + [last])) == Size(ServerLines(servers)) + |ServerLine(last)| + 1
  {
    assert ServerLines(servers + [last]) == ServerLines(servers) + [ServerLine(last)];
    SizeConcat(ServerLines(servers), [ServerLine(last)]);
    SizeOfOne(ServerLine(last));
  }

  lemma ServerShrinks(servers: seq<string>, line: string)
    requires IsServer(line)
    ensures Size(ServerLines(servers + [line[11..]])) == Size(ServerLines(servers)) + |line| + 1
    ensures !IsSearch(line)
  {
    ServerLineWrites(line);
    ServerLinesLast(servers, line[11..]);
  }

  lemma SearchShrinks(line: string)
    requires IsSearch(line)
    ensures Size(SearchLines(Split(line[7..], ' '))) == |line| + 1
  {
    SearchLineWrites(line);
    SizeOfOne(line);
  }

  lemma {:induction false} ReadingShrinks(lines: seq<string>)
    ensures Size(ServerLines(Servers(lines))) + Size(SearchLines(Search(lines))) <= Size(lines)
  {
    if lines != [] {
      var init, last := lines[..|lines| - 1], lines[|lines| - 1];
      ReadingShrinks(init);
      assert lines == init + [last];
      ReadLast(init, last);
      if IsServer(last) {
        ServerShrinks(Servers(init), last);
      } else if IsSearch(last) {
        assert Servers(lines) == Servers(init);
        SearchShrinks(last);
      } else {
        assert Servers(lines) == Servers(init);
      }
    }
  }

  lemma SizeOfBody(servers: seq<string>, search: seq<string>)
    ensures |Body(servers, search)| == Size(ServerLines(servers)) + Size(SearchLines(search))
  {
    SizeConcat(SearchLines(search), ServerLines(servers));
    SizeOfUnlines(SearchLines(search) + ServerLines(servers));
  }

  lemma BeforeMarkerIsShorter(text: string)
    requires Contains(text, MARKER)
    ensures |BeforeMarker(text)| + 35 <= |text|
  {
    assert |MARKER| == 35;
  }

  /** Cut at a marker of its own, the body is too short to hold all that was rendered. */
  lemma CutBodyReadsLess(servers: seq<string>, search: seq<string>)
    requires Contains(Body(servers, search), MARKER)
    ensures var lines := Split(BeforeMarker(Body(servers, search)), '\n');
            !(Servers(lines) == servers && Search(lines) == search)
  {
    var before := BeforeMarker(Body(servers, search));
    BeforeMarkerIsShorter(Body(servers, search));
    SizeOfBody(servers, search);
    ReadingShrinks(Split(before, '\n'));
    SizeOfSplit(before);
  }

  /** Over any previous file, reading the managed part back gives exactly the lists that were rendered,
      if and only if the rendered text does not itself contain the marker. */
  lemma RoundTrip(existing: Option<string>, servers: seq<string>, search: seq<string>)
    requires servers != [] && Words(servers) && Words(search)
    ensures var file := After(existing, servers, search).value;
            (ReadServers(file) == servers && ReadSearch(file) == search) <==> !Contains(Body(servers, search), MARKER)
  {
    ReadsBody(existing, servers, search);
    if Contains(Body(servers, search), MARKER) {
      CutBodyReadsLess(servers, search);
    } else {
      BodySplits(servers, search);
      LinesRead(servers, search);
    }
  }

  /** The marker can really be rendered: a search list that spells it out, word by word. */
  lemma MarkerInSearchList(search: seq<string>, servers: seq<string>)
    requires search != [] && Join(search, ' ') == MARKER
    ensures Contains(Body(servers, search), MARKER)
  {
    var line := SearchLine(search);
    var body := Body(servers, search);
    UnlinesFirst(line, ServerLines(servers));
    assert SearchLines(search) == [line];
    assert body[7..7 + |MARKER|] == line[7..] == MARKER;
    assert OccursAt(body, MARKER, 7);
  }

  lemma UnlinesFirst(line: string, more: seq<string>)
    ensures line <= Unlines([line] + more)
  {
    assert ([line] + more)[1..] == more;
    assert Unlines([line] + more) == line + ['\n'] + Unlines(more);
  }

  const SPELLED := ["#void-init:", "user", "config", "starts", "here"]

  lemma JoinCons(word: string, more: seq<string>)
    requires more != []
    ensures Join([word] + more, ' ') == word + " " + Join(more, ' ')
  {
    assert ([word] + more)[1..] == more;
  }

  lemma SpelledTail()
    ensures Join(["config", "starts", "here"], ' ') == "config starts here"
  {
    JoinCons("starts", ["here"]);
    JoinCons("config", ["starts", "here"]);
  }

  lemma MarkerPieces()
    ensures MARKER == "#void-init:" + " " + ("user" + " " + "config starts here")
  {
  }

  lemma SpelledJoins()
    ensures Join(SPELLED, ' ') == MARKER
  {
    var tail, middle := ["config", "starts", "here"], ["user", "config", "starts", "here"];
    SpelledTail();
    JoinCons("user", tail);
    assert ["user"] + tail == middle;
    JoinCons("#void-init:", middle);
    assert ["#void-init:"] + middle == SPELLED;
    MarkerPieces();
  }

  /** Such a list exists, and all its words are proper ones: the condition of the round trip is needed. */
  lemma MarkerCanBeSpelled()
    ensures Words(SPELLED) && Contains(Body(["192.0.2.1"], SPELLED), MARKER)
  {
    SpelledJoins();
    MarkerInSearchList(SPELLED, ["192.0.2.1"]);
    WordsSpelled();
  }

  lemma WordsSpelled()
    ensures Words(SPELLED)
  {
  }
}
