/** Files whose head is regenerated on every run while the user's tail is kept
    (cmd/void-init/fsutil.go and its twin in cmd/void-initfs/util.go). */
module ManagedFile {
  import opened Options
  import opened Strings

  const MARKER := "#void-init: user config starts here"

  /** The marker is not empty, sits on one line, and its last character is not one that trimming
      removes. */
  lemma MarkerShape()
    ensures MARKER != "" && !IsBlank(MARKER[|MARKER| - 1])
    ensures '\n' !in MARKER
  {
  }

  // ---------------------------------------------------------------- what is written

  /** The rendering up to and including its first marker, or all of it. */
  function Header(rendered: string): string {
    match IndexOf(rendered, MARKER)
    case Some(i) => rendered[..i + |MARKER|]
    case None => rendered
  }

  /** What follows the first marker of the file that is already there. */
  function UserSection(existing: Option<string>): string {
    if existing.None? then ""
    else
      match IndexOf(existing.value, MARKER)
      case Some(i) => existing.value[i + |MARKER|..]
      case None => ""
  }

  function SingleTrailingNewline(s: string): (r: string)
    ensures |r| >= 1 && r[|r| - 1] == '\n'
    ensures |r| >= 2 ==> !IsBlank(r[|r| - 2])
  {
    TrimRight(s) + "\n"
  }

  /** The content that writing `rendered` over `existing` leaves behind. */
  function Managed(existing: Option<string>, rendered: string): string {
    SingleTrailingNewline(Header(rendered) + UserSection(existing))
  }

  /** The content after writing the renderings one after the other. */
  function WriteAll(existing: Option<string>, renderings: seq<string>): Option<string> {
    if renderings == [] then existing
    else Some(Managed(WriteAll(existing, renderings[..|renderings| - 1]), renderings[|renderings| - 1]))
  }

  // ---------------------------------------------------------------- the two implementations

  /** How `os.WriteFile` ends: everything written, the file not opened, or only some bytes written
      to the file it had already truncated. */
  datatype WriteOutcome = Written | NotOpened | Partial(bytes: nat)

  /** The failures one call meets; `readFails` is an error other than "does not exist". */
  datatype Faults = Faults(readFails: bool, write: WriteOutcome, chmodFails: bool)

  function AfterWrite(before: Option<string>, data: string, outcome: WriteOutcome): Option<string> {
    match outcome
    case Written => Some(data)
    case NotOpened => before
    case Partial(n) => Some(if n <= |data| then data[..n] else data)
  }

  class File {
    var content: Option<string>

    method OsWriteFile(data: string, outcome: WriteOutcome) returns (ok: bool)
      modifies this
      ensures ok == outcome.Written?
      ensures content == AfterWrite(old(content), data, outcome)
    {
      match outcome
      case Written => content := Some(data); ok := true;
      case NotOpened => ok := false;
      case Partial(n) => content := Some(if n <= |data| then data[..n] else data); ok := false;
    }

    /** `writeManagedFile` of void-init. */
    method WriteManagedFile(rendered: string, faults: Faults) returns (ok: bool)
      modifies this
      ensures ok == (!faults.readFails && faults.write.Written? && !faults.chmodFails)
      ensures content == if faults.readFails then old(content)
                         else AfterWrite(old(content), Managed(old(content), rendered), faults.write)
    {
      var header := rendered;
      var idx := IndexOf(rendered, MARKER);
      if idx.Some? {
        header := rendered[..idx.value + |MARKER|];
      }
      assert header == Header(rendered);
      var userSection := "";
      if faults.readFails {
        return false;
      } else if content.Some? {
        var at := IndexOf(content.value, MARKER);
        if at.Some? {
          userSection := content.value[at.value + |MARKER|..];
        }
      }
      assert userSection == UserSection(content);
      ok := OsWriteFile(SingleTrailingNewline(header + userSection), faults.write);
      if ok && faults.chmodFails {
        return false;
      }
    }

    /** `writeFile` of void-initfs. */
    method WriteFile(text: string, write: WriteOutcome, chmodFails: bool) returns (ok: bool)
      modifies this
      ensures ok == (write.Written? && !chmodFails)
      ensures content == AfterWrite(old(content), SingleTrailingNewline(text), write)
    {
      var trimmed := TrimRight(text) + "\n";
      ok := OsWriteFile(trimmed, write);
      if ok && chmodFails {
        return false;
      }
    }

    /** `writeManagedFile` of void-initfs: the same contract as void-init's. */
    method WriteManagedFileInImage(rendered: string, faults: Faults) returns (ok: bool)
      modifies this
      ensures ok == (!faults.readFails && faults.write.Written? && !faults.chmodFails)
      ensures content == if faults.readFails then old(content)
                         else AfterWrite(old(content), Managed(old(content), rendered), faults.write)
    {
      var header := rendered;
      var idx := IndexOf(rendered, MARKER);
      if idx.Some? {
        header := rendered[..idx.value + |MARKER|];
      }
      assert header == Header(rendered);
      var userSection := "";
      if faults.readFails {
        return false;
      } else if content.Some? {
        var at := IndexOf(content.value, MARKER);
        if at.Some? {
          userSection := content.value[at.value + |MARKER|..];
        }
      }
      assert userSection == UserSection(content);
      ok := WriteFile(header + userSection, faults.write, faults.chmodFails);
    }
  }

  // ---------------------------------------------------------------- laws

  /** Nothing appended after a header can make the marker occur any earlier. */
  lemma HeaderKeepsFirstMarker(rendered: string, tail: string)
    requires Contains(rendered, MARKER)
    ensures var h := Header(rendered);
            |h| >= |MARKER| && IndexOf(h + tail, MARKER) == Some(|h| - |MARKER|)
  {
    var i, h := IndexOf(rendered, MARKER).value, Header(rendered);
    assert (h + tail)[i..i + |MARKER|] == rendered[i..i + |MARKER|];
    forall j: nat | j < i ensures !OccursAt(h + tail, MARKER, j) {
      assert (h + tail)[j..j + |MARKER|] == rendered[j..j + |MARKER|];
      assert !OccursAt(rendered, MARKER, j);
    }
    IndexIsFirst(h + tail, MARKER, i);
  }

  /** A marker-bearing rendering is written whole: trimming only ever touches the user's section. */
  lemma ManagedForm(existing: Option<string>, rendered: string)
    requires Contains(rendered, MARKER)
    ensures Managed(existing, rendered) == Header(rendered) + TrimRight(UserSection(existing)) + "\n"
  {
    var h := Header(rendered);
    HeaderKeepsFirstMarker(rendered, "");
    assert h + "" == h;
    assert h[|h| - 1] == MARKER[|MARKER| - 1];
    MarkerShape();
    TrimIs(h, h);
    TrimConcat(h, UserSection(existing));
  }

  lemma UserSectionOfManaged(existing: Option<string>, rendered: string)
    requires Contains(rendered, MARKER)
    ensures UserSection(Some(Managed(existing, rendered))) == TrimRight(UserSection(existing)) + "\n"
  {
    var tail := TrimRight(UserSection(existing)) + "\n";
    ManagedForm(existing, rendered);
    HeaderKeepsFirstMarker(rendered, tail);
    Assoc(Header(rendered), TrimRight(UserSection(existing)), "\n");
  }

  /** Last writer wins: what an earlier marker-bearing rendering left behind makes no difference to
      what the next one writes, whatever that next one is. */
  lemma LastWriterWins(existing: Option<string>, r1: string, r2: string)
    requires Contains(r1, MARKER)
    ensures Managed(Some(Managed(existing, r1)), r2) == Managed(existing, r2)
  {
    UserSectionOfManaged(existing, r1);
    TrimAbsorbs(Header(r2), UserSection(existing), "\n");
  }

  /** Any number of runs leaves exactly what the last one alone would have left. */
  lemma {:induction false} RerunsCollapse(existing: Option<string>, renderings: seq<string>)
    requires renderings != []
    requires forall r | r in renderings[..|renderings| - 1] :: Contains(r, MARKER)
    ensures WriteAll(existing, renderings) == Some(Managed(existing, renderings[|renderings| - 1]))
  {
    var init := renderings[..|renderings| - 1];
    if init != [] {
      RerunsCollapse(existing, init);
      LastWriterWins(existing, init[|init| - 1], renderings[|renderings| - 1]);
    }
  }

  /** After any non-empty sequence of marker-bearing renderings the user's section is the original
      one, trimmed on the right and closed by one newline, and the head is the last rendering's. */
  lemma UserSectionSurvives(existing: Option<string>, renderings: seq<string>)
    requires renderings != []
    requires forall r | r in renderings :: Contains(r, MARKER)
    ensures UserSection(WriteAll(existing, renderings)) == TrimRight(UserSection(existing)) + "\n"
    ensures Header(WriteAll(existing, renderings).value) == Header(renderings[|renderings| - 1])
  {
    var last := renderings[|renderings| - 1];
    RerunsCollapse(existing, renderings);
    UserSectionOfManaged(existing, last);
    HeaderOfManaged(existing, last);
  }

  lemma HeaderOfManaged(existing: Option<string>, rendered: string)
    requires Contains(rendered, MARKER)
    ensures Header(Managed(existing, rendered)) == Header(rendered)
  {
    var tail := TrimRight(UserSection(existing)) + "\n";
    ManagedForm(existing, rendered);
    HeaderKeepsFirstMarker(rendered, tail);
    Assoc(Header(rendered), TrimRight(UserSection(existing)), "\n");
  }

  /** The marker has no newline, so a final newline cannot complete one. */
  lemma NewlineMakesNoMarker(s: string)
    ensures Contains(s + "\n", MARKER) ==> Contains(s, MARKER)
  {
    MarkerShape();
    forall i: nat | OccursAt(s + "\n", MARKER, i) ensures OccursAt(s, MARKER, i) {
      assert (s + "\n")[i..i + |MARKER|][|MARKER| - 1] == (s + "\n")[i + |MARKER| - 1];
      assert i + |MARKER| <= |s|;
      assert s[i..i + |MARKER|] == (s + "\n")[i..i + |MARKER|];
    }
  }

  // ---------------------------------------------------------------- what becomes of the text

  /** The text `head`, the marker and `tail` put together, in which the marker after `head` is the first. */
  ghost predicate MarkerFollows(head: string, tail: string) {
    forall j: nat | j < |head| :: !OccursAt(head + MARKER + tail, MARKER, j)
  }

  lemma MarkerIsAt(head: string, tail: string)
    requires MarkerFollows(head, tail)
    ensures var text := head + MARKER + tail;
            && Contains(text, MARKER) && IndexOf(text, MARKER) == Some(|head|)
            && text[..|head| + |MARKER|] == head + MARKER && text[|head| + |MARKER|..] == tail
  {
    var text := head + MARKER + tail;
    assert text[|head|..|head| + |MARKER|] == MARKER;
    IndexIsFirst(text, MARKER, |head|);
  }

  /** What the file says below its marker is still there, below the marker of the new rendering, once it
      has been written: all of it but the blanks at the end, which become one newline. What the file says
      above its marker is gone, and so is anything the rendering has below its own. */
  lemma UserTextIsKept(head: string, tail: string, r: string, rest: string)
    requires MarkerFollows(head, tail) && MarkerFollows(r, rest)
    ensures Managed(Some(head + MARKER + tail), r + MARKER + rest) == r + MARKER + TrimRight(tail) + "\n"
  {
    MarkerIsAt(head, tail);
    MarkerIsAt(r, rest);
    ManagedForm(Some(head + MARKER + tail), r + MARKER + rest);
  }

  /** Over a missing file, or one without a marker, only the rendering is written. */
  lemma NothingToKeep(existing: Option<string>, r: string, rest: string)
    requires MarkerFollows(r, rest)
    requires existing.Some? ==> !Contains(existing.value, MARKER)
    ensures Managed(existing, r + MARKER + rest) == r + MARKER + "\n"
  {
    MarkerIsAt(r, rest);
    ManagedForm(existing, r + MARKER + rest);
    TrimBlank("");
    assert r + MARKER + "" == r + MARKER;
  }

  /** A rendering without a marker is put in front of the kept text, and no marker between them. */
  lemma MarkerlessIsPutInFront(head: string, tail: string, r: string)
    requires MarkerFollows(head, tail) && !Contains(r, MARKER)
    ensures Managed(Some(head + MARKER + tail), r) == TrimRight(r + tail) + "\n"
  {
    MarkerIsAt(head, tail);
  }

  lemma MarkerlessAlone(existing: Option<string>, r: string)
    requires !Contains(r, MARKER) && (existing.Some? ==> !Contains(existing.value, MARKER))
    ensures Managed(existing, r) == TrimRight(r) + "\n"
  {
    assert r + "" == r;
  }

  /** Over any number of runs, each with a marker somewhere in its rendering: the user's text is still
      there, below the last rendering's marker. */
  lemma UserTextSurvivesRuns(head: string, tail: string, renderings: seq<string>, r: string, rest: string)
    requires MarkerFollows(head, tail) && MarkerFollows(r, rest)
    requires renderings != [] && renderings[|renderings| - 1] == r + MARKER + rest
    requires forall i | 0 <= i < |renderings| :: Contains(renderings[i], MARKER)
    ensures WriteAll(Some(head + MARKER + tail), renderings) == Some(r + MARKER + TrimRight(tail) + "\n")
  {
    RerunsCollapse(Some(head + MARKER + tail), renderings);
    UserTextIsKept(head, tail, r, rest);
  }

  // ---------------------------------------------------------------- renderings without a marker

  /** The text written for a rendering without a marker over a blank user's section has no marker. */
  lemma NoMarkerWritten(r: string)
    requires !Contains(r, MARKER)
    ensures !Contains(TrimRight(r) + "\n", MARKER)
  {
    NewlineMakesNoMarker(TrimRight(r));
    if Contains(TrimRight(r), MARKER) { TrimContains(r, MARKER); }
  }

  lemma OccursInFront(r: string, tail: string, i: nat)
    requires OccursAt(r + tail, MARKER, i) && i + |MARKER| <= |r|
    ensures Contains(r, MARKER)
  {
    assert r[i..i + |MARKER|] == (r + tail)[i..i + |MARKER|];
    assert OccursAt(r, MARKER, i);
  }

  /** A text that ends in a visible character, cut somewhere and closed by a newline. */
  lemma TrimOfCut(text: string, from: nat)
    requires from <= |text| && (text != "" ==> !IsBlank(text[|text| - 1]))
    ensures TrimRight((text + "\n")[from..]) == text[from..]
  {
    assert (text + "\n")[from..] == text[from..] + "\n";
    TrimIs(text[from..] + "\n", text[from..]);
  }

  /** A marker found in it that does not come from the rendering is found inside the user's section, so
      something of that section is cut away. */
  lemma MarkerlessCutsUserSection(r: string, t: string)
    requires !Contains(r, MARKER) && t != "" && !IsBlank(t[|t| - 1])
    ensures TrimRight(UserSection(Some(r + t + "\n"))) != t
  {
    var text := r + t;
    var m := text + "\n";
    if Contains(m, MARKER) {
      var i := IndexOf(m, MARKER).value;
      MarkerEndsBefore(text, i);
      TrimOfCut(text, i + |MARKER|);
      if i + |MARKER| <= |r| {
        assert m == r + (t + "\n");
        OccursInFront(r, t + "\n", i);
      }
    }
  }

  lemma MarkerEndsBefore(text: string, i: nat)
    requires OccursAt(text + "\n", MARKER, i)
    ensures i + |MARKER| <= |text|
  {
    MarkerShape();
    assert (text + "\n")[i..i + |MARKER|][|MARKER| - 1] == (text + "\n")[i + |MARKER| - 1];
  }

  lemma TrimEmptyIsBlank(s: string)
    ensures TrimRight(s) == "" <==> AllBlank(s)
  {
    if TrimRight(s) == "" {
      assert s[0..] == s;
    } else {
      assert TrimRight(s)[|TrimRight(s)| - 1] in s;
    }
  }

  lemma TrimOfTrimmed(u: string)
    ensures TrimRight(TrimRight(u) + "\n") == TrimRight(u)
  {
    TrimIs(TrimRight(u) + "\n", TrimRight(u));
  }

  lemma MarkerlessKeepsBlankOnly(r: string, u: string)
    requires !Contains(r, MARKER)
    ensures TrimRight(UserSection(Some(TrimRight(r + u) + "\n"))) == TrimRight(u) <==> TrimRight(u) == ""
  {
    if TrimRight(u) == "" {
      BlankIsGone(r, u);
    } else {
      TextIsCut(r, u);
    }
  }

  lemma TextIsCut(r: string, u: string)
    requires !Contains(r, MARKER) && TrimRight(u) != ""
    ensures TrimRight(UserSection(Some(TrimRight(r + u) + "\n"))) != TrimRight(u)
  {
    TrimConcat(r, u);
    MarkerlessCutsUserSection(r, TrimRight(u));
  }

  lemma BlankIsGone(r: string, u: string)
    requires !Contains(r, MARKER) && TrimRight(u) == ""
    ensures TrimRight(UserSection(Some(TrimRight(r + u) + "\n"))) == ""
  {
    TrimConcat(r, u);
    NoMarkerWritten(r);
  }

  /** Writing a rendering keeps the user's section, up to blanks at its end, if and only if the rendering
      has the marker or there was nothing but blanks in the section. */
  lemma UserSectionKeptExactly(existing: Option<string>, r: string)
    ensures TrimRight(UserSection(Some(Managed(existing, r)))) == TrimRight(UserSection(existing)) <==>
            Contains(r, MARKER) || AllBlank(UserSection(existing))
  {
    TrimEmptyIsBlank(UserSection(existing));
    if Contains(r, MARKER) {
      UserSectionOfManaged(existing, r);
      TrimOfTrimmed(UserSection(existing));
    } else {
      MarkerlessKeepsBlankOnly(r, UserSection(existing));
    }
  }

  /** What is written next depends on the user's section only up to blanks at its end. */
  lemma ManagedDependsOnTrimmed(one: Option<string>, other: Option<string>, r: string)
    requires TrimRight(UserSection(one)) == TrimRight(UserSection(other))
    ensures Managed(one, r) == Managed(other, r)
  {
    TrimConcat(Header(r), UserSection(one));
    TrimConcat(Header(r), UserSection(other));
  }

  lemma MarkerItself()
    ensures Contains(MARKER, MARKER)
  {
    assert OccursAt(MARKER, MARKER, 0);
  }

  lemma SameTail(h: string, a: string, b: string)
    requires h + a + "\n" == h + b + "\n"
    ensures a == b
  {
    assert |a| == |b|;
    assert (h + a + "\n")[|h|..|h| + |a|] == a && (h + b + "\n")[|h|..|h| + |b|] == b;
  }

  lemma ManagedTellsApart(one: Option<string>, other: Option<string>)
    requires TrimRight(UserSection(one)) != TrimRight(UserSection(other))
    ensures Managed(one, MARKER) != Managed(other, MARKER)
  {
    MarkerItself();
    ManagedForm(one, MARKER);
    ManagedForm(other, MARKER);
    if Managed(one, MARKER) == Managed(other, MARKER) {
      SameTail(Header(MARKER), TrimRight(UserSection(one)), TrimRight(UserSection(other)));
    }
  }

  /** The last writer wins over `r1`, whatever is written next, if and only if `r1` has the marker or
      there was nothing but blanks in the user's section. */
  lemma LastWriterWinsExactly(existing: Option<string>, r1: string)
    ensures (forall r2 :: Managed(Some(Managed(existing, r1)), r2) == Managed(existing, r2)) <==>
            Contains(r1, MARKER) || AllBlank(UserSection(existing))
  {
    var after := Some(Managed(existing, r1));
    UserSectionKeptExactly(existing, r1);
    if TrimRight(UserSection(after)) == TrimRight(UserSection(existing)) {
      forall r2 ensures Managed(after, r2) == Managed(existing, r2) {
        ManagedDependsOnTrimmed(after, existing, r2);
      }
    } else {
      ManagedTellsApart(after, existing);
      assert Managed(after, MARKER) != Managed(existing, MARKER);
    }
  }

  // ---------------------------------------------------------------- reading the managed part back

  /** The text before the first marker, or all of it. */
  function BeforeMarker(text: string): string {
    match IndexOf(text, MARKER)
    case Some(i) => text[..i]
    case None => text
  }

  /** What a reader finds before the marker is what the rendering has there, over any file. */
  lemma BeforeMarkerOfManaged(existing: Option<string>, rendered: string)
    requires Contains(rendered, MARKER)
    ensures BeforeMarker(Managed(existing, rendered)) == BeforeMarker(rendered)
  {
    HeaderBefore(rendered, TrimRight(UserSection(existing)) + "\n");
    ManagedForm(existing, rendered);
    Assoc(Header(rendered), TrimRight(UserSection(existing)), "\n");
  }

  lemma HeaderBefore(rendered: string, tail: string)
    requires Contains(rendered, MARKER)
    ensures BeforeMarker(Header(rendered) + tail) == BeforeMarker(rendered)
  {
    HeaderKeepsFirstMarker(rendered, tail);
    var i := IndexOf(rendered, MARKER).value;
    PrefixOfPrefix(rendered, i, i + |MARKER|, tail);
  }

  lemma PrefixOfPrefix(s: string, i: nat, n: nat, tail: string)
    requires i <= n <= |s|
    ensures (s[..n] + tail)[..i] == s[..i]
  {
  }

  /** A body of whole lines followed by the marker: the marker is found at its end, unless the body has
      one of its own. */
  lemma MarkerAfterBody(body: string, tail: string)
    requires body == "" || body[|body| - 1] == '\n'
    ensures Contains(body + MARKER + tail, MARKER)
    ensures BeforeMarker(body + MARKER + tail) == if Contains(body, MARKER) then BeforeMarker(body) else body
  {
    var text := body + MARKER + tail;
    assert text[|body|..|body| + |MARKER|] == MARKER;
    assert OccursAt(text, MARKER, |body|);
    forall j: nat | j < |body| ensures OccursAt(text, MARKER, j) <==> OccursAt(body, MARKER, j) {
      OccursInBody(body, MARKER + tail, j);
      assert text == body + (MARKER + tail);
    }
    if Contains(body, MARKER) {
      var i := IndexOf(body, MARKER).value;
      IndexIsFirst(text, MARKER, i);
      assert text[..i] == body[..i];
    } else {
      IndexIsFirst(text, MARKER, |body|);
      assert text[..|body|] == body;
    }
  }

  lemma OccursInBody(body: string, tail: string, j: nat)
    requires j < |body| && body[|body| - 1] == '\n'
    ensures OccursAt(body + tail, MARKER, j) <==> OccursAt(body, MARKER, j)
  {
    MarkerShape();
    var text := body + tail;
    if j + |MARKER| <= |body| {
      assert text[j..j + |MARKER|] == body[j..j + |MARKER|];
    } else {
      NewlineInside(text, |body| - 1, j);
    }
  }

  lemma NewlineInside(text: string, at: nat, j: nat)
    requires j <= at < |text| && at < j + |MARKER| && text[at] == '\n'
    ensures !OccursAt(text, MARKER, j)
  {
    MarkerShape();
    if j + |MARKER| <= |text| {
      assert text[j..j + |MARKER|][at - j] == '\n';
      assert MARKER[at - j] in MARKER;
    }
  }
}
