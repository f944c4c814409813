/** Text files as lists of lines: what writing a list of lines back through `writeFile` of
    cmd/void-initfs/util.go, trimming included, leaves to the next reader. */
module LineFile {
  import opened Strings
  import opened ManagedFile

  type Lines = ls: seq<string> | |ls| >= 1 witness [""]

  function LinesOf(text: string): Lines {
    Split(text, '\n')
  }

  predicate Proper(lines: seq<string>) {
    forall i | 0 <= i < |lines| :: '\n' !in lines[i]
  }

  /** What `writeFile` leaves when it is given the joined lines. */
  function WriteLines(lines: Lines): string {
    SingleTrailingNewline(Join(lines, '\n'))
  }

  /** Trimming the joined lines, seen line by line: trailing blank lines go, the last line kept is
      trimmed. */
  function Trimmed(lines: Lines): (r: Lines)
    ensures |r| <= |lines|
  {
    var init, last := lines[..|lines| - 1], TrimRight(lines[|lines| - 1]);
    if last == "" && |lines| > 1 then Trimmed(init) else init + [last]
  }

  /** Line by line: unchanged before the last line kept, which is trimmed; what is gone was blank. */
  lemma {:induction false} TrimmedLine(lines: Lines, i: nat)
    requires i < |lines|
    ensures var r := Trimmed(lines);
            && (i < |r| - 1 ==> r[i] == lines[i])
            && (i == |r| - 1 ==> r[i] == TrimRight(lines[i]))
            && (i >= |r| ==> TrimRight(lines[i]) == "")
  {
    if TrimRight(lines[|lines| - 1]) == "" && |lines| > 1 && i < |lines| - 1 {
      TrimmedLine(lines[..|lines| - 1], i);
    }
  }

  lemma JoinLast(init: Lines, last: string)
    ensures Join(init + [last], '\n') == Join(init, '\n') + ("\n" + last)
  {
    JoinConcat(init, [last], '\n');
    var head := Join(init, '\n');
    assert head + ['\n'] + last == head + ("\n" + last);
  }

  lemma TrimLast(head: string, last: string)
    ensures TrimRight(head + ("\n" + last)) ==
            if TrimRight(last) == "" then TrimRight(head) else head + ("\n" + TrimRight(last))
  {
    TrimConcat("\n", last);
    TrimBlank("\n");
    TrimConcat(head, "\n" + last);
  }

  lemma {:induction false} TrimJoined(lines: Lines)
    ensures TrimRight(Join(lines, '\n')) == Join(Trimmed(lines), '\n')
  {
    if |lines| > 1 {
      var init, last := lines[..|lines| - 1], lines[|lines| - 1];
      assert init + [last] == lines;
      JoinLast(init, last);
      TrimLast(Join(init, '\n'), last);
      if TrimRight(last) == "" {
        TrimJoined(init);
      } else {
        JoinLast(init, TrimRight(last));
      }
    }
  }

  lemma TrimmedProper(lines: Lines)
    requires Proper(lines)
    ensures Proper(Trimmed(lines))
  {
    forall i | 0 <= i < |Trimmed(lines)| ensures '\n' !in Trimmed(lines)[i] {
      TrimmedLine(lines, i);
    }
  }

  /** The trimmed lines and the empty line after the final newline. */
  function Reread(lines: Lines): Lines {
    Trimmed(lines) + [""]
  }

  /** Reading back what was written. */
  lemma LinesWritten(lines: Lines)
    requires Proper(lines)
    ensures LinesOf(WriteLines(lines)) == Reread(lines)
  {
    var kept := Trimmed(lines);
    TrimJoined(lines);
    TrimmedProper(lines);
    SplitJoin(kept, '\n');
    SplitConcat(Join(kept, '\n'), '\n', "");
    assert WriteLines(lines) == Join(kept, '\n') + ['\n'] + "";
  }

  lemma LinesOfProper(text: string)
    ensures Proper(LinesOf(text))
  {
    forall i | 0 <= i < |LinesOf(text)| ensures '\n' !in LinesOf(text)[i] {
      assert LinesOf(text)[i] in LinesOf(text);
    }
  }

  /** Writing what was read back once more changes nothing. */
  lemma RewriteIsStable(lines: Lines)
    ensures WriteLines(Reread(lines)) == WriteLines(lines)
  {
    var kept := Trimmed(lines);
    TrimJoined(lines);
    JoinConcat(kept, [""], '\n');
    var text := Join(lines, '\n');
    assert Join(kept, '\n') + ['\n'] + "" == "" + (TrimRight(text) + "\n");
    TrimAbsorbs("", text, "\n");
    assert "" + text == text;
  }

  // ---------------------------------------------------------------- line by line

  /** `f` applied to every line. */
  function Map<T>(f: string -> T, lines: seq<string>): (r: seq<T>)
    ensures |r| == |lines|
  {
    if lines == [] then [] else Map(f, lines[..|lines| - 1]) + [f(lines[|lines| - 1])]
  }

  lemma {:induction false} MapAt<T>(f: string -> T, lines: seq<string>, i: nat)
    requires i < |lines|
    ensures Map(f, lines)[i] == f(lines[i])
  {
    if i < |lines| - 1 {
      MapAt(f, lines[..|lines| - 1], i);
    }
  }

  lemma {:induction false} MapConcat<T>(f: string -> T, a: seq<string>, b: seq<string>)
    ensures Map(f, a + b) == Map(f, a) + Map(f, b)
  {
    if b == [] {
      assert a + b == a;
    } else {
      MapConcat(f, a, b[..|b| - 1]);
      assert (a + b)[..|a + b| - 1] == a + b[..|b| - 1];
    }
  }
}
