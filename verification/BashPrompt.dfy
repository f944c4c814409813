/** `setBashPrompt` of cmd/void-initfs/bashprompt.go: making sure /root/.bashrc sets the prompt. */
module BashPrompt {
  import opened Options
  import opened Strings
  import opened ManagedFile
  import opened LineFile
  import opened KeyPattern

  /** `bashPromptLine`. Its '$' is followed by a blank, so as a regexp replacement template it stands
      for itself. */
  const PROMPT := "PS1=" + @"'\[\e]0;\u@\h: \w\a\]\u@\h:\w\$ '"

  // The two longest lines are written in two pieces, which the verifier can look into at less cost.
  const NOTE := "# If not running interactively, " + "don't do anything"
  const GUARD := "[[ $- != *i* ]] && return"
  const ALIAS := "alias ls='ls --color=auto'"

  /** The embedded bashrc template, line by line. */
  const TEMPLATE: Lines := ["# .bashrc", "", NOTE, GUARD, "", ALIAS, PROMPT, ""]

  /** The multi-line pattern `^[ \t]*PS1=.*$` matches exactly the whole lines that start, after blanks,
      with "PS1=". */
  predicate IsPrompt(line: string) {
    "PS1=" <= Strip(line, Blank)
  }

  /** What the pattern describes: blanks, then "PS1=", then anything. */
  ghost predicate MatchesPrompt(line: string) {
    exists blanks, rest :: All(blanks, Blank) && line == blanks + ("PS1=" + rest)
  }

  lemma PromptIsCut(line: string)
    requires IsPrompt(line)
    ensures MatchesPrompt(line)
  {
    var blanks := StripCuts(line, Blank);
    var s := Strip(line, Blank);
    assert s == "PS1=" + s[4..];
  }

  lemma CutIsPrompt(blanks: string, rest: string)
    requires All(blanks, Blank)
    ensures IsPrompt(blanks + ("PS1=" + rest))
  {
    StripSplits(blanks, Blank, "PS1=" + rest);
  }

  /** The scanner accepts exactly the lines that the pattern describes. */
  lemma PromptIsPattern(line: string)
    ensures IsPrompt(line) <==> MatchesPrompt(line)
  {
    if IsPrompt(line) { PromptIsCut(line); }
    if MatchesPrompt(line) {
      var blanks, rest :| All(blanks, Blank) && line == blanks + ("PS1=" + rest);
      CutIsPrompt(blanks, rest);
    }
  }

  function NewPrompt(prompt: string, line: string): string {
    if IsPrompt(line) then prompt else line
  }

  function NewPrompts(prompt: string, lines: Lines): (r: Lines)
    ensures |r| == |lines|
  {
    Map(line => NewPrompt(prompt, line), lines)
  }

  lemma NewPromptAt(prompt: string, lines: Lines, i: nat)
    requires i < |lines|
    ensures NewPrompts(prompt, lines)[i] == NewPrompt(prompt, lines[i])
  {
    MapAt(line => NewPrompt(prompt, line), lines, i);
  }

  predicate HasPrompt(lines: Lines) {
    exists i | 0 <= i < |lines| :: IsPrompt(lines[i])
  }

  /** The text that is written: the old one with every prompt line replaced, or the template. */
  function PromptText(existing: Option<string>): string {
    if existing.Some? && HasPrompt(LinesOf(existing.value)) then
      WriteLines(NewPrompts(PROMPT, LinesOf(existing.value)))
    else WriteLines(TEMPLATE)
  }

  /** `setBashPrompt`; `readFails` is an error other than "does not exist". */
  method SetBashPrompt(file: File, readFails: bool, write: WriteOutcome, chmodFails: bool) returns (ok: bool)
    modifies file
    ensures ok == (!readFails && write.Written? && !chmodFails)
    ensures file.content == if readFails then old(file.content)
                            else AfterWrite(old(file.content), PromptText(old(file.content)), write)
  {
    if readFails {
      return false;
    }
    if file.content.None? || !HasPrompt(LinesOf(file.content.value)) {
      ok := file.WriteFile(Join(TEMPLATE, '\n'), write, chmodFails);
      return;
    }
    var replaced := NewPrompts(PROMPT, LinesOf(file.content.value));
    ok := file.WriteFile(Join(replaced, '\n'), write, chmodFails);
  }

  // ---------------------------------------------------------------- each line

  /** A prompt line that fits on one line and that trimming leaves alone. */
  predicate IsSound(prompt: string) {
    IsPrompt(prompt) && '\n' !in prompt && TrimRight(prompt) == prompt
  }

  lemma PromptShape()
    ensures IsSound(PROMPT)
  {
    assert PROMPT[0] == 'P';
    assert PROMPT[|PROMPT| - 1] == '\'';
    TrimIs(PROMPT, PROMPT);
  }

  lemma StripLonger(t: string, rest: string)
    requires Strip(t, Blank) != ""
    ensures Strip(t + rest, Blank) == Strip(t, Blank) + rest
  {
    var blanks := StripCuts(t, Blank);
    Assoc(blanks, Strip(t, Blank), rest);
    StripSplits(blanks, Blank, Strip(t, Blank) + rest);
  }

  lemma LongerIsPrompt(t: string, rest: string)
    requires IsPrompt(t)
    ensures IsPrompt(t + rest)
  {
    StripLonger(t, rest);
    var s := Strip(t, Blank);
    assert (s + rest)[..4] == s[..4];
  }

  lemma TrimmingMakesNoPrompt(line: string)
    requires IsPrompt(TrimRight(line))
    ensures IsPrompt(line)
  {
    TrimSplits(line);
    LongerIsPrompt(TrimRight(line), line[|TrimRight(line)|..]);
  }

  lemma NewPromptSettles(prompt: string, line: string)
    requires IsSound(prompt)
    ensures var n := NewPrompt(prompt, line);
            NewPrompt(prompt, n) == n && NewPrompt(prompt, TrimRight(n)) == TrimRight(n)
  {
    if !IsPrompt(line) && IsPrompt(TrimRight(line)) {
      TrimmingMakesNoPrompt(line);
    }
  }

  // ---------------------------------------------------------------- the file

  lemma PromptLineKept(prompt: string, lines: Lines, i: nat)
    requires IsSound(prompt) && i < |lines|
    ensures var out := NewPrompts(prompt, lines);
            && (i < |Trimmed(out)| ==> NewPrompt(prompt, Trimmed(out)[i]) == Trimmed(out)[i])
            && (IsPrompt(lines[i]) ==> i < |Trimmed(out)| && Trimmed(out)[i] == prompt)
  {
    var out := NewPrompts(prompt, lines);
    NewPromptAt(prompt, lines, i);
    TrimmedLine(out, i);
    NewPromptSettles(prompt, lines[i]);
    assert prompt != "";
  }

  lemma NewPromptsProper(prompt: string, lines: Lines)
    requires IsSound(prompt) && Proper(lines)
    ensures Proper(NewPrompts(prompt, lines))
  {
    forall i | 0 <= i < |lines| ensures '\n' !in NewPrompts(prompt, lines)[i] {
      NewPromptAt(prompt, lines, i);
    }
  }

  /** What is read back from a file with the prompt set. */
  function ReadAgain(prompt: string, lines: Lines): Lines {
    Reread(NewPrompts(prompt, lines))
  }

  lemma ReadAgainSettled(prompt: string, lines: Lines)
    requires IsSound(prompt)
    ensures NewPrompts(prompt, ReadAgain(prompt, lines)) == ReadAgain(prompt, lines)
  {
    var after := ReadAgain(prompt, lines);
    forall i | 0 <= i < |after| ensures NewPrompts(prompt, after)[i] == after[i] {
      NewPromptAt(prompt, after, i);
      if i < |after| - 1 { PromptLineKept(prompt, lines, i); }
    }
  }

  lemma PromptWritten(prompt: string, lines: Lines) returns (i: nat)
    requires IsSound(prompt) && Proper(lines) && HasPrompt(lines)
    ensures LinesOf(WriteLines(NewPrompts(prompt, lines))) == ReadAgain(prompt, lines)
    ensures i < |ReadAgain(prompt, lines)| && ReadAgain(prompt, lines)[i] == prompt
  {
    PromptLinesWritten(prompt, lines);
    i := PromptReadAgain(prompt, lines);
  }

  lemma PromptLinesWritten(prompt: string, lines: Lines)
    requires IsSound(prompt) && Proper(lines) && HasPrompt(lines)
    ensures LinesOf(WriteLines(NewPrompts(prompt, lines))) == ReadAgain(prompt, lines)
  {
    NewPromptsProper(prompt, lines);
    LinesWritten(NewPrompts(prompt, lines));
  }

  lemma PromptReadAgain(prompt: string, lines: Lines) returns (i: nat)
    requires IsSound(prompt) && HasPrompt(lines)
    ensures i < |ReadAgain(prompt, lines)| && ReadAgain(prompt, lines)[i] == prompt
  {
    i :| 0 <= i < |lines| && IsPrompt(lines[i]);
    PromptLineKept(prompt, lines, i);
  }

  /** Setting the prompt again in a file written with the prompt set changes nothing. */
  lemma PromptSetAgain(prompt: string, lines: Lines)
    requires IsSound(prompt) && Proper(lines) && HasPrompt(lines)
    ensures var after := LinesOf(WriteLines(NewPrompts(prompt, lines)));
            HasPrompt(after) && WriteLines(NewPrompts(prompt, after)) == WriteLines(NewPrompts(prompt, lines))
  {
    var i := PromptWritten(prompt, lines);
    ReadAgainSettled(prompt, lines);
    RewriteIsStable(NewPrompts(prompt, lines));
  }

  lemma PromptSetStays(lines: Lines)
    requires Proper(lines) && HasPrompt(lines)
    ensures PromptText(Some(WriteLines(NewPrompts(PROMPT, lines)))) == WriteLines(NewPrompts(PROMPT, lines))
  {
    PromptShape();
    PromptSetAgain(PROMPT, lines);
  }

  /** A line that starts with another visible character is no prompt line. */
  lemma OtherStart(line: string)
    requires line == "" || (!In(line[0], Blank) && line[0] != 'P')
    ensures !IsPrompt(line)
  {
  }

  lemma TemplateLine(i: nat)
    requires i < |TEMPLATE|
    ensures '\n' !in TEMPLATE[i] && (i != 6 ==> !IsPrompt(TEMPLATE[i]))
  {
    match i
    case 0 => OtherStart("# .bashrc");
    case 2 => NoteShape(); OtherStart(NOTE);
    case 3 => GuardShape(); OtherStart(GUARD);
    case 5 => AliasShape(); OtherStart(ALIAS);
    case 6 => PromptShape();
    case _ => OtherStart("");
  }

  lemma NoteShape() ensures NOTE[0] == '#' && '\n' !in NOTE {}

  lemma GuardShape() ensures GUARD[0] == '[' && '\n' !in GUARD {}

  lemma AliasShape() ensures ALIAS[0] == 'a' && '\n' !in ALIAS {}

  lemma AllSettled(prompt: string, lines: Lines)
    requires forall i | 0 <= i < |lines| :: '\n' !in lines[i] && NewPrompt(prompt, lines[i]) == lines[i]
    ensures Proper(lines) && NewPrompts(prompt, lines) == lines
  {
    forall i | 0 <= i < |lines| ensures NewPrompts(prompt, lines)[i] == lines[i] {
      NewPromptAt(prompt, lines, i);
    }
  }

  lemma TemplateIsSettled()
    ensures Proper(TEMPLATE) && HasPrompt(TEMPLATE) && NewPrompts(PROMPT, TEMPLATE) == TEMPLATE
  {
    var lines := TEMPLATE;
    PromptShape();
    assert lines[6] == PROMPT;
    forall i | 0 <= i < |lines| ensures '\n' !in lines[i] && NewPrompt(PROMPT, lines[i]) == lines[i] {
      TemplateLine(i);
    }
    AllSettled(PROMPT, lines);
  }

  lemma TemplateKeptWhole()
    ensures Trimmed(TEMPLATE) == TEMPLATE[..|TEMPLATE| - 1]
  {
    var most := TEMPLATE[..|TEMPLATE| - 1];
    PromptShape();
    TrimBlank("");
    assert most[..|most| - 1] + [PROMPT] == most && PROMPT != "";
    assert Trimmed(most) == most;
  }

  /** A missing file, or one in which no line sets the prompt, is replaced by the template, line for line. */
  lemma TemplateWhereNoPrompt(existing: Option<string>)
    requires existing.Some? ==> forall i | 0 <= i < |LinesOf(existing.value)| :: !MatchesPrompt(LinesOf(existing.value)[i])
    ensures LinesOf(PromptText(existing)) == TEMPLATE
  {
    if existing.Some? {
      forall i | 0 <= i < |LinesOf(existing.value)| ensures !IsPrompt(LinesOf(existing.value)[i]) {
        PromptIsPattern(LinesOf(existing.value)[i]);
      }
    }
    TemplateIsSettled();
    LinesWritten(TEMPLATE);
    TemplateKeptWhole();
    assert TEMPLATE[..|TEMPLATE| - 1] + [""] == TEMPLATE;
  }

  /** Every file that is written is some list of lines with the prompt set. */
  lemma WrittenFrom(existing: Option<string>) returns (lines: Lines)
    ensures Proper(lines) && HasPrompt(lines) && PromptText(existing) == WriteLines(NewPrompts(PROMPT, lines))
  {
    if existing.Some? && HasPrompt(LinesOf(existing.value)) {
      lines := LinesOf(existing.value);
      LinesOfProper(existing.value);
    } else {
      lines := TEMPLATE;
      TemplateIsSettled();
    }
  }

  /** Whatever was there before, missing file included: running it again leaves the file as it is. */
  lemma SettingThePromptIsIdempotent(existing: Option<string>)
    ensures PromptText(Some(PromptText(existing))) == PromptText(existing)
  {
    var lines := WrittenFrom(existing);
    PromptSetStays(lines);
  }

  /** Afterwards the file sets the prompt, and never to anything else. */
  lemma OnlyThePromptRemains(existing: Option<string>)
    ensures var after := LinesOf(PromptText(existing));
            && (exists i | 0 <= i < |after| :: after[i] == PROMPT)
            && (forall i | 0 <= i < |after| && IsPrompt(after[i]) :: after[i] == PROMPT)
  {
    var lines := WrittenFrom(existing);
    PromptShape();
    var _ := PromptWritten(PROMPT, lines);
    OnlyPrompts(PROMPT, lines);
  }

  lemma OnlyPrompts(prompt: string, lines: Lines)
    requires IsSound(prompt)
    ensures var after := ReadAgain(prompt, lines);
            forall i | 0 <= i < |after| && IsPrompt(after[i]) :: after[i] == prompt
  {
    var after := ReadAgain(prompt, lines);
    ReadAgainSettled(prompt, lines);
    forall i | 0 <= i < |after| && IsPrompt(after[i]) ensures after[i] == prompt {
      NewPromptAt(prompt, after, i);
    }
  }

  /** In a file with a prompt line, line i stays where it is: replaced if it sets the prompt, otherwise
      unchanged but for blanks trimmed at the end of the file. */
  lemma OtherLinesStay(text: string, i: nat)
    requires HasPrompt(LinesOf(text)) && i < |LinesOf(text)|
    ensures var line := NewPrompt(PROMPT, LinesOf(text)[i]);
            var after := LinesOf(PromptText(Some(text)));
            || (i < |after| - 1 && after[i] == line)
            || (i == |after| - 2 && after[i] == TrimRight(line))
            || (i >= |after| - 1 && TrimRight(line) == "")
  {
    PromptShape();
    LinesOfProper(text);
    LinesStay(PROMPT, LinesOf(text), i);
  }

  lemma LinesStay(prompt: string, lines: Lines, i: nat)
    requires IsSound(prompt) && Proper(lines) && HasPrompt(lines) && i < |lines|
    ensures var line := NewPrompt(prompt, lines[i]);
            var after := LinesOf(WriteLines(NewPrompts(prompt, lines)));
            || (i < |after| - 1 && after[i] == line)
            || (i == |after| - 2 && after[i] == TrimRight(line))
            || (i >= |after| - 1 && TrimRight(line) == "")
  {
    var _ := PromptWritten(prompt, lines);
    NewPromptAt(prompt, lines, i);
    TrimmedLine(NewPrompts(prompt, lines), i);
  }
}
