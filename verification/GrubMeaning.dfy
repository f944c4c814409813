/** What the rewriting of /etc/default/grub means to the shell that sources it, that it is idempotent,
    and that it leaves the other lines alone. */
module GrubMeaning {
  import opened Options
  import opened Strings
  import opened LineFile
  import opened KeyPattern
  import opened GrubDefaults

  // ---------------------------------------------------------------- reading the file

  datatype Binding = Binding(name: string, value: string)

  /** A shell variable name. */
  predicate IsName(s: string) {
    s != "" && All(s, Name) && !('0' <= s[0] <= '9')
  }

  /** The assignment a line makes, if it is an uncommented one; trailing blanks are no part of the
      value. */
  function Assigned(line: string): Option<Binding> {
    match Head(line)
    case None => None
    case Some(h) =>
      var name := Strip(h, Blank);
      if IsName(name) then Some(Binding(name, TrimRight(line[|h| + 1..]))) else None
  }

  /** The environment after reading the lines one by one: the last assignment wins. */
  function LastValue(lines: seq<string>, name: string): Option<string> {
    if lines == [] then None
    else
      var b := Assigned(lines[|lines| - 1]);
      if b.Some? && b.value.name == name then Some(b.value.value)
      else LastValue(lines[..|lines| - 1], name)
  }

  lemma {:induction false} LastValueConcat(a: seq<string>, b: seq<string>, name: string)
    ensures LastValue(a + b, name) ==
            if LastValue(b, name).Some? then LastValue(b, name) else LastValue(a, name)
  {
    if b == [] {
      assert a + b == a;
    } else {
      assert (a + b)[..|a + b| - 1] == a + b[..|b| - 1];
      LastValueConcat(a, b[..|b| - 1], name);
    }
  }

  // ---------------------------------------------------------------- one line

  lemma TailAfterEquals(head: string, rest: string)
    ensures (head + "=" + rest)[|head| + 1..] == rest
  {
  }

  lemma TrimmedAssigns(line: string)
    ensures Assigned(TrimRight(line)) == Assigned(line)
  {
    HeadOfTrimmed(line);
    if Head(line).Some? {
      var h, t := Head(line).value, TrimRight(line);
      var rest := TrimRight(line[|h| + 1..]);
      TailAfterEquals(h, rest);
      TrimIs(rest, rest);
    }
  }

  lemma BlankAssignsNothing(line: string)
    requires TrimRight(line) == ""
    ensures Assigned(line) == None
  {
    TrimmedAssigns(line);
    assert Head("") == None;
  }

  /** A name stands at the start of what the pattern's scanner sees too. */
  lemma NameIsSeen(head: string)
    requires IsName(Strip(head, Blank))
    ensures StripHash(Strip(head, Space)) == Strip(head, Blank)
  {
    var name := Strip(head, Blank);
    var blanks := StripCuts(head, Blank);
    assert In(name[0], Name) && name[0] != '#' && !In(name[0], Space);
    BlanksAreSpace(blanks);
    StripSplits(blanks, Space, name);
  }

  lemma BlanksAreSpace(s: string)
    requires All(s, Blank)
    ensures All(s, Space)
  {
    assert forall i | 0 <= i < |s| :: In(s[i], Blank) ==> In(s[i], Space);
  }

  /** The name a line assigns is the key the pattern finds in it, whenever both exist; and a name made
      of key characters is always found. */
  lemma AssignedNameIsKey(line: string)
    requires Assigned(line).Some?
    ensures MatchKey(line).Some? ==> MatchKey(line).value == Assigned(line).value.name
    ensures All(Assigned(line).value.name, Key) ==> MatchKey(line).Some?
  {
    NameIsSeen(Head(line).value);
  }

  lemma KeyCharsAreNameChars(s: string)
    requires All(s, Key)
    ensures All(s, Name)
  {
  }

  lemma KeyIsName(key: string)
    requires key != "" && All(key, Key)
    ensures IsName(key) && Strip(key, Blank) == key
  {
    KeyCharsAreNameChars(key);
    assert In(key[0], Key) && !In(key[0], Blank);
  }

  lemma AssignmentAssigns(s: Setting)
    requires Usable(s)
    ensures Assigned(Assignment(s)) == Some(Binding(s.key, s.value))
  {
    AssignmentMatches(s);
    KeyIsName(s.key);
    assert Assignment(s)[|s.key| + 1..] == s.value;
  }

  // ---------------------------------------------------------------- all lines

  lemma {:induction false} TrimmedKeepsValues(lines: Lines, name: string)
    ensures LastValue(Trimmed(lines), name) == LastValue(lines, name)
  {
    var init, last := lines[..|lines| - 1], lines[|lines| - 1];
    TrimmedAssigns(last);
    if TrimRight(last) == "" {
      BlankAssignsNothing(last);
      if |lines| > 1 {
        TrimmedKeepsValues(init, name);
      }
    }
    if TrimRight(last) != "" || |lines| == 1 {
      assert Trimmed(lines)[..|lines| - 1] == init;
    }
  }

  /** A line that assigns a setting's key is replaced by that setting; no other assignment changes. */
  lemma NewLineAssigns(settings: seq<Setting>, line: string, name: string)
    requires WellFormed(settings)
    ensures var b, n := Assigned(line), Assigned(NewLine(settings, line));
            match ValueOf(settings, name)
            case Some(v) =>
              if MatchKey(line) == Some(name) then n == Some(Binding(name, v)) else n.None? || n.value.name != name
            case None => (n.Some? && n.value.name == name) || (b.Some? && b.value.name == name) ==> n == b
  {
    ValueOfIs(settings, name);
    NewLineIs(settings, line);
    NewLineSettles(settings, line);
    var n := NewLine(settings, line);
    if n != line {
      var k :| 0 <= k < |settings| && n == Assignment(settings[k]) && MatchKey(line) == Some(settings[k].key);
      AssignmentAssigns(settings[k]);
      if Assigned(line).Some? { AssignedNameIsKey(line); }
    } else if Assigned(line).Some? {
      AssignedNameIsKey(line);
    }
    if MatchKey(line) == Some(name) && ValueOf(settings, name).Some? {
      var k :| 0 <= k < |settings| && settings[k].key == name;
      AssignmentAssigns(settings[k]);
    }
  }

  lemma NewLinesLast(settings: seq<Setting>, lines: seq<string>, name: string)
    requires lines != []
    ensures var init, last := lines[..|lines| - 1], lines[|lines| - 1];
            && NewLines(settings, lines) == NewLines(settings, init) + [NewLine(settings, last)]
            && (Mentions(lines, name) <==> Mentions(init, name) || MatchKey(last) == Some(name))
  {
    assert Keys(lines) == Keys(lines[..|lines| - 1]) + [MatchKey(lines[|lines| - 1])];
  }

  lemma LastValueOneMore(lines: seq<string>, last: string, name: string)
    ensures LastValue(lines + [last], name) ==
            if Assigned(last).Some? && Assigned(last).value.name == name then Some(Assigned(last).value.value)
            else LastValue(lines, name)
  {
    assert (lines + [last])[..|lines|] == lines;
  }

  lemma {:induction false} NewLinesValue(settings: seq<Setting>, lines: seq<string>, name: string)
    requires WellFormed(settings)
    ensures LastValue(NewLines(settings, lines), name) ==
            match ValueOf(settings, name)
            case Some(v) => if Mentions(lines, name) then Some(v) else None
            case None => LastValue(lines, name)
  {
    if lines != [] {
      var init, last := lines[..|lines| - 1], lines[|lines| - 1];
      NewLinesValue(settings, init, name);
      NewLinesLast(settings, lines, name);
      NewLineAssigns(settings, last, name);
      LastValueOneMore(NewLines(settings, init), NewLine(settings, last), name);
    }
  }

  lemma {:induction false} ValueOfAppended(init: seq<Setting>, last: Setting, name: string)
    ensures ValueOf(init + [last], name) ==
            if ValueOf(init, name).Some? then ValueOf(init, name)
            else if last.key == name then Some(last.value) else None
  {
    if init == [] {
      assert init + [last] == [last];
    } else {
      ValueOfAppended(init[1..], last, name);
      assert (init + [last])[1..] == init[1..] + [last];
    }
  }

  lemma ValueOfLast(settings: seq<Setting>, name: string)
    requires WellFormed(settings) && settings != []
    ensures var last := settings[|settings| - 1];
            ValueOf(settings, name) ==
            if last.key == name then Some(last.value) else ValueOf(settings[..|settings| - 1], name)
  {
    var init, last := settings[..|settings| - 1], settings[|settings| - 1];
    assert settings == init + [last];
    ValueOfAppended(init, last, name);
    if last.key == name {
      ValueOfIs(init, name);
      assert forall i | 0 <= i < |init| :: init[i].key == settings[i].key != name;
    }
  }

  lemma {:induction false} MissingValue(settings: seq<Setting>, lines: seq<string>, name: string)
    requires WellFormed(settings)
    ensures LastValue(Missing(settings, lines), name) ==
            if Mentions(lines, name) then None else ValueOf(settings, name)
  {
    if settings != [] {
      var last := settings[|settings| - 1];
      var init := settings[..|settings| - 1];
      MissingValue(init, lines, name);
      ValueOfLast(settings, name);
      assert Usable(last);
      AppendedValue(Missing(init, lines), last, Mentions(lines, last.key), name);
    }
  }

  lemma AppendedValue(lines: seq<string>, s: Setting, found: bool, name: string)
    requires Usable(s)
    ensures LastValue(lines + if found then [] else [Assignment(s)], name) ==
            if !found && s.key == name then Some(s.value) else LastValue(lines, name)
  {
    AssignmentAssigns(s);
    assert lines + [] == lines;
    assert (lines + [Assignment(s)])[..|lines|] == lines;
  }

  lemma RewrittenValue(settings: seq<Setting>, lines: Lines, name: string)
    requires WellFormed(settings)
    ensures LastValue(Rewritten(settings, lines), name) ==
            match ValueOf(settings, name)
            case Some(v) => Some(v)
            case None => LastValue(lines, name)
  {
    NewLinesValue(settings, lines, name);
    MissingValue(settings, lines, name);
    LastValueConcat(NewLines(settings, lines), Missing(settings, lines), name);
  }

  // ---------------------------------------------------------------- the file

  lemma NewLinesProper(settings: seq<Setting>, lines: seq<string>)
    requires WellFormed(settings) && Proper(lines)
    ensures Proper(NewLines(settings, lines))
  {
    forall i | 0 <= i < |lines| ensures '\n' !in NewLines(settings, lines)[i] {
      MapAt(line => NewLine(settings, line), lines, i);
      NewLineProper(settings, lines[i]);
    }
  }

  lemma {:induction false} ValueOfProper(settings: seq<Setting>, key: string)
    requires forall i | 0 <= i < |settings| :: Usable(settings[i])
    ensures ValueOf(settings, key).Some? ==> '\n' !in ValueOf(settings, key).value
  {
    if settings != [] {
      ValueOfProper(settings[1..], key);
    }
  }

  lemma NewLineProper(settings: seq<Setting>, line: string)
    requires WellFormed(settings) && '\n' !in line
    ensures '\n' !in NewLine(settings, line)
  {
    if MatchKey(line).Some? {
      KeyHasNoNewline(MatchKey(line).value);
      ValueOfProper(settings, MatchKey(line).value);
    }
  }

  lemma KeyHasNoNewline(key: string)
    requires All(key, Key)
    ensures '\n' !in key
  {
  }

  lemma RewrittenProper(settings: seq<Setting>, lines: Lines)
    requires WellFormed(settings) && Proper(lines)
    ensures Proper(Rewritten(settings, lines))
  {
    NewLinesProper(settings, lines);
    MissingProper(settings, lines);
  }

  lemma {:induction false} MissingProper(settings: seq<Setting>, lines: seq<string>)
    requires WellFormed(settings)
    ensures Proper(Missing(settings, lines))
  {
    if settings != [] {
      MissingProper(settings[..|settings| - 1], lines);
      assert Usable(settings[|settings| - 1]);
    }
  }

  /** For every file: read line by line, the result's environment is the input's, overridden by exactly
      the settings. */
  lemma RewriteOverridesExactly(settings: seq<Setting>, text: string, name: string)
    requires WellFormed(settings)
    ensures LastValue(LinesOf(RewrittenText(settings, text)), name) ==
            match ValueOf(settings, name)
            case Some(v) => Some(v)
            case None => LastValue(LinesOf(text), name)
  {
    var lines := Rewritten(settings, LinesOf(text));
    LinesOfProper(text);
    RewrittenProper(settings, LinesOf(text));
    LinesWritten(lines);
    RewrittenValue(settings, LinesOf(text), name);
    TrimmedKeepsValues(lines, name);
    BlankAssignsNothing("");
    LastValueConcat(Trimmed(lines), [""], name);
  }

  lemma FastbootValue(name: string)
    ensures ValueOf(FASTBOOT, name) ==
            if name == "GRUB_TIMEOUT" then Some("0")
            else if name == "GRUB_TIMEOUT_STYLE" then Some("hidden")
            else if name == "GRUB_RECORDFAIL_TIMEOUT" then Some("0")
            else None
  {
    FastbootWellFormed();
    ValueOfIs(FASTBOOT, name);
    assert FASTBOOT[0] == Setting("GRUB_TIMEOUT", "0");
    assert FASTBOOT[1] == Setting("GRUB_TIMEOUT_STYLE", "hidden");
    assert FASTBOOT[2] == Setting("GRUB_RECORDFAIL_TIMEOUT", "0");
  }

  /** The three fastboot settings, spelled out. */
  lemma FastbootMeaning(text: string, name: string)
    ensures LastValue(LinesOf(RewrittenText(FASTBOOT, text)), name) ==
            if name == "GRUB_TIMEOUT" then Some("0")
            else if name == "GRUB_TIMEOUT_STYLE" then Some("hidden")
            else if name == "GRUB_RECORDFAIL_TIMEOUT" then Some("0")
            else LastValue(LinesOf(text), name)
  {
    FastbootWellFormed();
    RewriteOverridesExactly(FASTBOOT, text, name);
    FastbootValue(name);
  }

  /** Where line i of the input ends up: rewritten in its place, trimmed if it is now the last line, and
      gone only if nothing but blank lines came after and it was blank itself. */
  lemma LinesStayInPlace(settings: seq<Setting>, text: string, i: nat)
    requires WellFormed(settings) && i < |LinesOf(text)|
    ensures var line := NewLine(settings, LinesOf(text)[i]);
            var after := LinesOf(RewrittenText(settings, text));
            || (i < |after| - 1 && after[i] == line)
            || (i == |after| - 2 && after[i] == TrimRight(line))
            || (i >= |after| - 1 && TrimRight(line) == "")
    ensures (forall k | 0 <= k < |settings| :: MatchKey(LinesOf(text)[i]) != Some(settings[k].key)) ==>
              NewLine(settings, LinesOf(text)[i]) == LinesOf(text)[i]
  {
    var lines := Rewritten(settings, LinesOf(text));
    LinesOfProper(text);
    RewrittenProper(settings, LinesOf(text));
    LinesWritten(lines);
    TrimmedLine(lines, i);
    MapAt(line => NewLine(settings, line), LinesOf(text), i);
    NewLineIs(settings, LinesOf(text)[i]);
  }

  // ---------------------------------------------------------------- idempotence

  lemma {:induction false} MissingNothing(settings: seq<Setting>, lines: seq<string>)
    requires forall k | 0 <= k < |settings| :: Mentions(lines, settings[k].key)
    ensures Missing(settings, lines) == []
  {
    if settings != [] {
      MissingNothing(settings[..|settings| - 1], lines);
    }
  }

  /** Every appended line is the assignment of a setting. */
  lemma {:induction false} MissingLine(settings: seq<Setting>, lines: seq<string>, i: nat) returns (k: nat)
    requires i < |Missing(settings, lines)|
    ensures k < |settings| && Missing(settings, lines)[i] == Assignment(settings[k])
  {
    k := |settings| - 1;
    if i < |Missing(settings[..k], lines)| {
      k := MissingLine(settings[..k], lines, i);
    }
  }

  /** And there is one for each setting that no line mentions. */
  lemma {:induction false} MissingHas(settings: seq<Setting>, lines: seq<string>, k: nat)
    requires k < |settings| && !Mentions(lines, settings[k].key)
    ensures Assignment(settings[k]) in Missing(settings, lines)
  {
    if k < |settings| - 1 {
      MissingHas(settings[..|settings| - 1], lines, k);
    }
  }

  lemma MentionsConcat(a: seq<string>, b: seq<string>, key: string)
    ensures Mentions(a + b, key) <==> Mentions(a, key) || Mentions(b, key)
  {
    MapConcat(MatchKey, a, b);
  }

  lemma MentionsAt(lines: seq<string>, i: nat, key: string)
    requires i < |lines| && MatchKey(lines[i]) == Some(key)
    ensures Mentions(lines, key)
  {
    MapAt(MatchKey, lines, i);
  }

  lemma MentionsWhere(lines: seq<string>, key: string) returns (i: nat)
    requires Mentions(lines, key)
    ensures i < |lines| && MatchKey(lines[i]) == Some(key)
  {
    i :| 0 <= i < |lines| && Keys(lines)[i] == Some(key);
    MapAt(MatchKey, lines, i);
  }

  lemma RewrittenMentions(settings: seq<Setting>, lines: Lines, k: nat)
    requires WellFormed(settings) && k < |settings|
    ensures Mentions(Rewritten(settings, lines), settings[k].key)
  {
    var key := settings[k].key;
    MentionsConcat(NewLines(settings, lines), Missing(settings, lines), key);
    if Mentions(lines, key) {
      var i := MentionsWhere(lines, key);
      NewLineSettles(settings, lines[i]);
      MapAt(line => NewLine(settings, line), lines, i);
      MentionsAt(NewLines(settings, lines), i, key);
    } else {
      MissingHas(settings, lines, k);
      AssignmentMatches(settings[k]);
      var i :| 0 <= i < |Missing(settings, lines)| && Missing(settings, lines)[i] == Assignment(settings[k]);
      MentionsAt(Missing(settings, lines), i, key);
    }
  }

  /** Every rewritten line is settled: rewriting it again, trimmed or not, changes nothing. */
  lemma RewrittenSettled(settings: seq<Setting>, lines: Lines, i: nat)
    requires WellFormed(settings) && i < |Rewritten(settings, lines)|
    ensures var line := Rewritten(settings, lines)[i];
            && NewLine(settings, line) == line && NewLine(settings, TrimRight(line)) == TrimRight(line)
            && MatchKey(TrimRight(line)) == MatchKey(line)
  {
    var line := Rewritten(settings, lines)[i];
    HeadOfTrimmed(line);
    if i < |lines| {
      MapAt(l => NewLine(settings, l), lines, i);
      NewLineSettles(settings, lines[i]);
    } else {
      var k := MissingLine(settings, lines, i - |lines|);
      AssignmentMatches(settings[k]);
      NewLineIs(settings, line);
    }
  }

  /** What is read back from a rewritten file. */
  function ReadAgain(settings: seq<Setting>, lines: Lines): Lines {
    Reread(Rewritten(settings, lines))
  }

  lemma ReadAgainSettled(settings: seq<Setting>, lines: Lines, i: nat)
    requires WellFormed(settings) && i < |ReadAgain(settings, lines)|
    ensures NewLine(settings, ReadAgain(settings, lines)[i]) == ReadAgain(settings, lines)[i]
  {
    var out := Rewritten(settings, lines);
    if i < |Trimmed(out)| {
      TrimmedLine(out, i);
      RewrittenSettled(settings, lines, i);
    } else {
      assert MatchKey("") == None;
    }
  }

  lemma ReadAgainMentions(settings: seq<Setting>, lines: Lines, k: nat)
    requires WellFormed(settings) && k < |settings|
    ensures Mentions(ReadAgain(settings, lines), settings[k].key)
  {
    var out := Rewritten(settings, lines);
    RewrittenMentions(settings, lines, k);
    var i := MentionsWhere(out, settings[k].key);
    TrimmedLine(out, i);
    RewrittenSettled(settings, lines, i);
    assert MatchKey("") == None;
    MentionsAt(ReadAgain(settings, lines), i, settings[k].key);
  }

  /** Rewriting what is read back from a rewritten file changes no line and appends none. */
  lemma RewrittenTwice(settings: seq<Setting>, lines: Lines)
    requires WellFormed(settings)
    ensures Rewritten(settings, ReadAgain(settings, lines)) == ReadAgain(settings, lines)
  {
    var again := ReadAgain(settings, lines);
    forall i | 0 <= i < |again| ensures NewLines(settings, again)[i] == again[i] {
      ReadAgainSettled(settings, lines, i);
      MapAt(line => NewLine(settings, line), again, i);
    }
    assert NewLines(settings, again) == again;
    forall k | 0 <= k < |settings| ensures Mentions(again, settings[k].key) {
      ReadAgainMentions(settings, lines, k);
    }
    MissingNothing(settings, again);
  }

  /** Running the rewriting again on its own result leaves the file as it is, byte for byte. */
  lemma RewriteIsIdempotent(settings: seq<Setting>, text: string)
    requires WellFormed(settings)
    ensures RewrittenText(settings, RewrittenText(settings, text)) == RewrittenText(settings, text)
  {
    var lines := LinesOf(text);
    LinesOfProper(text);
    RewrittenProper(settings, lines);
    LinesWritten(Rewritten(settings, lines));
    RewrittenTwice(settings, lines);
    RewriteIsStable(Rewritten(settings, lines));
  }
}
