/** `setGrubFastboot` of cmd/void-initfs/bootloader.go: rewriting /etc/default/grub in place. */
module GrubDefaults {
  import opened Options
  import opened Strings
  import opened ManagedFile
  import opened LineFile
  import opened KeyPattern

  datatype Setting = Setting(key: string, value: string)

  const FASTBOOT := [
    Setting("GRUB_TIMEOUT", "0"),
    Setting("GRUB_TIMEOUT_STYLE", "hidden"),
    Setting("GRUB_RECORDFAIL_TIMEOUT", "0")]

  // ---------------------------------------------------------------- the rewriting

  /** A key the pattern can match and a value that neither breaks nor ends a line in blanks. */
  predicate Usable(s: Setting) {
    && s.key != "" && All(s.key, Key)
    && '\n' !in s.value && TrimRight(s.value) == s.value
  }

  predicate WellFormed(settings: seq<Setting>) {
    && (forall i | 0 <= i < |settings| :: Usable(settings[i]))
    && (forall i, j | 0 <= i < j < |settings| :: settings[i].key != settings[j].key)
  }

  function ValueOf(settings: seq<Setting>, key: string): Option<string> {
    if settings == [] then None
    else if settings[0].key == key then Some(settings[0].value)
    else ValueOf(settings[1..], key)
  }

  function Assignment(s: Setting): string {
    s.key + "=" + s.value
  }

  function NewLine(settings: seq<Setting>, line: string): string {
    match MatchKey(line)
    case Some(key) =>
      (match ValueOf(settings, key)
       case Some(value) => key + "=" + value
       case None => line)
    case None => line
  }

  function NewLines(settings: seq<Setting>, lines: seq<string>): (r: seq<string>)
    ensures |r| == |lines|
  {
    Map(line => NewLine(settings, line), lines)
  }

  /** The key that each line mentions, if any. */
  function Keys(lines: seq<string>): (r: seq<Option<string>>)
    ensures |r| == |lines|
  {
    Map(MatchKey, lines)
  }

  predicate Mentions(lines: seq<string>, key: string) {
    Some(key) in Keys(lines)
  }

  /** The assignments appended for the keys that no line mentions, in the order of the settings. */
  function Missing(settings: seq<Setting>, lines: seq<string>): seq<string> {
    if settings == [] then []
    else
      var s := settings[|settings| - 1];
      Missing(settings[..|settings| - 1], lines) + if Mentions(lines, s.key) then [] else [Assignment(s)]
  }

  function Rewritten(settings: seq<Setting>, lines: Lines): Lines {
    NewLines(settings, lines) + Missing(settings, lines)
  }

  function RewrittenText(settings: seq<Setting>, text: string): string {
    WriteLines(Rewritten(settings, LinesOf(text)))
  }

  // ---------------------------------------------------------------- in place

  lemma {:induction false} ValueOfIs(settings: seq<Setting>, key: string)
    ensures ValueOf(settings, key).None? <==> forall i | 0 <= i < |settings| :: settings[i].key != key
    ensures WellFormed(settings) ==>
              forall i | 0 <= i < |settings| && settings[i].key == key :: ValueOf(settings, key) == Some(settings[i].value)
  {
    if settings != [] {
      ValueOfIs(settings[1..], key);
      assert forall i | 1 <= i < |settings| :: settings[i] == settings[1..][i - 1];
    }
  }

  /** `found` holds those keys of the settings that are among the keys mentioned. */
  ghost predicate Found(settings: seq<Setting>, found: set<string>, keys: seq<Option<string>>) {
    forall k | 0 <= k < |settings| :: settings[k].key in found <==> Some(settings[k].key) in keys
  }

  /** The inner loop of `setGrubFastboot`: line i, which mentions `key`, is replaced where it stands by
      the setting with that key, if there is one. */
  method ReplaceLine(settings: seq<Setting>, key: string, i: nat, start: Lines, was: set<string>, ghost line: string)
      returns (lines: Lines, found: set<string>)
    requires i < |start|
    requires forall q | 0 <= q < |settings| && settings[q].key == key :: line == Assignment(settings[q])
    requires (forall q | 0 <= q < |settings| :: settings[q].key != key) ==> line == start[i]
    ensures lines == start[i := line]
    ensures (forall q | 0 <= q < |settings| :: settings[q].key != key) ==> found == was
    ensures (exists q | 0 <= q < |settings| :: settings[q].key == key) ==> found == was + {key}
  {
    lines, found := start, was;
    for k := 0 to |settings|
      invariant (forall q | 0 <= q < k :: settings[q].key != key) ==> lines == start && found == was
      invariant (exists q | 0 <= q < k :: settings[q].key == key) ==> lines == start[i := line] && found == was + {key}
    {
      if key == settings[k].key {
        lines := lines[i := settings[k].key + "=" + settings[k].value];
        found := found + {settings[k].key};
      }
    }
  }

  /** The first loop of `setGrubFastboot`: every line that mentions a setting's key. */
  method ReplaceLines(settings: seq<Setting>, original: Lines) returns (lines: Lines, found: set<string>)
    requires WellFormed(settings)
    ensures lines == NewLines(settings, original)
    ensures Found(settings, found, Keys(original))
  {
    ghost var target, keys := NewLines(settings, original), Keys(original);
    lines, found := original, {};
    for i := 0 to |original|
      invariant |lines| == |original|
      invariant forall j | 0 <= j < |original| :: lines[j] == if j < i then target[j] else original[j]
      invariant Found(settings, found, keys[..i])
    {
      var m := MatchKey(original[i]);
      ghost var was := found;
      MapAt(line => NewLine(settings, line), original, i);
      MapAt(MatchKey, original, i);
      if m.Some? {
        NewLineFor(settings, original[i]);
        lines, found := ReplaceLine(settings, m.value, i, lines, found, target[i]);
      }
      FoundOneMore(settings, was, found, keys, i);
    }
    assert keys[..|original|] == keys;
  }

  lemma NewLineFor(settings: seq<Setting>, line: string)
    requires WellFormed(settings) && MatchKey(line).Some?
    ensures var key := MatchKey(line).value;
            && (forall q | 0 <= q < |settings| && settings[q].key == key :: NewLine(settings, line) == Assignment(settings[q]))
            && ((forall q | 0 <= q < |settings| :: settings[q].key != key) ==> NewLine(settings, line) == line)
  {
    ValueOfIs(settings, MatchKey(line).value);
  }

  lemma FoundOneMore(settings: seq<Setting>, was: set<string>, found: set<string>, keys: seq<Option<string>>, i: nat)
    requires i < |keys| && Found(settings, was, keys[..i])
    requires keys[i].None? ==> found == was
    requires keys[i].Some? ==>
               && ((forall q | 0 <= q < |settings| :: settings[q].key != keys[i].value) ==> found == was)
               && ((exists q | 0 <= q < |settings| :: settings[q].key == keys[i].value) ==> found == was + {keys[i].value})
    ensures Found(settings, found, keys[..i + 1])
  {
    assert keys[..i + 1] == keys[..i] + [keys[i]];
  }

  lemma MissingOneMore(settings: seq<Setting>, lines: seq<string>, k: nat, start: seq<string>)
    requires k < |settings|
    ensures start + Missing(settings[..k + 1], lines) ==
            start + Missing(settings[..k], lines) +
            if Mentions(lines, settings[k].key) then [] else [Assignment(settings[k])]
  {
    assert settings[..k + 1][..k] == settings[..k];
    LinesAssoc(start, Missing(settings[..k], lines), if Mentions(lines, settings[k].key) then [] else [Assignment(settings[k])]);
  }

  lemma LinesAssoc(a: seq<string>, b: seq<string>, c: seq<string>)
    ensures a + (b + c) == a + b + c
  {
  }

  /** The second loop: an assignment for every setting not found. */
  method AppendMissing(settings: seq<Setting>, found: set<string>, start: Lines, ghost original: Lines)
      returns (lines: Lines)
    requires Found(settings, found, Keys(original))
    ensures lines == start + Missing(settings, original)
  {
    lines := start;
    for k := 0 to |settings|
      invariant lines == start + Missing(settings[..k], original)
    {
      MissingOneMore(settings, original, k, start);
      if settings[k].key !in found {
        lines := lines + [Assignment(settings[k])];
      }
    }
    assert settings[..|settings|] == settings;
  }

  lemma TimeoutUsable()
    ensures Usable(FASTBOOT[0])
  {
    TrimIs("0", "0");
  }

  lemma StyleUsable()
    ensures Usable(FASTBOOT[1])
  {
    TrimIs("hidden", "hidden");
  }

  lemma RecordfailUsable()
    ensures Usable(FASTBOOT[2])
  {
    RecordfailKey();
    TrimIs("0", "0");
  }

  lemma RecordfailKey()
    ensures All("GRUB_RECORDFAIL_TIMEOUT", Key)
  {
    assert "GRUB_RECORDFAIL_TIMEOUT" == "GRUB_RECORD" + "FAIL_TIMEOUT";
    assert All("GRUB_RECORD", Key) && All("FAIL_TIMEOUT", Key);
  }

  lemma KeysDiffer()
    ensures |FASTBOOT[0].key| == 12 && |FASTBOOT[1].key| == 18 && |FASTBOOT[2].key| == 23
  {
  }

  lemma FastbootWellFormed()
    ensures WellFormed(FASTBOOT)
  {
    TimeoutUsable();
    StyleUsable();
    RecordfailUsable();
    KeysDiffer();
    var settings := FASTBOOT;
    assert |settings| == 3;
  }

  /** `setGrubFastboot` on the file. */
  method SetGrubFastboot(file: File, statFails: bool, readFails: bool, write: WriteOutcome, chmodFails: bool)
      returns (ok: bool)
    modifies file
    ensures ok == (old(file.content).Some? && !statFails && !readFails && write.Written? && !chmodFails)
    ensures file.content == if old(file.content).None? || statFails || readFails then old(file.content)
                            else AfterWrite(old(file.content), RewrittenText(FASTBOOT, old(file.content).value), write)
  {
    if file.content.None? || statFails || readFails {
      return false;
    }
    FastbootWellFormed();
    var original := LinesOf(file.content.value);
    var lines, found := ReplaceLines(FASTBOOT, original);
    lines := AppendMissing(FASTBOOT, found, lines, original);
    ok := file.WriteFile(Join(lines, '\n'), write, chmodFails);
  }

  // ---------------------------------------------------------------- each line

  lemma KeyHasNoEquals(key: string)
    requires All(key, Key)
    ensures '=' !in key
  {
  }

  lemma KeyAlone(key: string)
    requires key != "" && All(key, Key)
    ensures KeyIn(key) == Some(key)
  {
    assert "" + ("" + ("" + key)) == key;
    KeyInFinds(key, "", "", "", key);
  }

  lemma AssignmentMatches(s: Setting)
    requires Usable(s)
    ensures Head(Assignment(s)) == Some(s.key) && MatchKey(Assignment(s)) == Some(s.key)
    ensures TrimRight(Assignment(s)) == Assignment(s)
  {
    KeyHasNoEquals(s.key);
    HeadSplits(s.key, s.value);
    KeyAlone(s.key);
    TrimConcat(s.key + "=", s.value);
    TrimIs(s.key + "=", s.key + "=");
  }

  /** What a line becomes is its own key's assignment, or the line itself. */
  lemma NewLineIs(settings: seq<Setting>, line: string)
    requires WellFormed(settings)
    ensures NewLine(settings, line) == line ||
            exists k | 0 <= k < |settings| ::
              MatchKey(line) == Some(settings[k].key) && NewLine(settings, line) == Assignment(settings[k])
    ensures forall k | 0 <= k < |settings| && MatchKey(line) == Some(settings[k].key) ::
              NewLine(settings, line) == Assignment(settings[k])
  {
    if MatchKey(line).Some? {
      ValueOfIs(settings, MatchKey(line).value);
    }
  }

  /** Rewriting settles a line: the key stays, and trimming or rewriting again changes nothing more. */
  lemma NewLineSettles(settings: seq<Setting>, line: string)
    requires WellFormed(settings)
    ensures var n := NewLine(settings, line);
            && MatchKey(n) == MatchKey(line)
            && NewLine(settings, n) == n
            && NewLine(settings, TrimRight(n)) == TrimRight(n)
  {
    NewLineIs(settings, line);
    var n := NewLine(settings, line);
    HeadOfTrimmed(n);
    NewLineIs(settings, n);
    NewLineIs(settings, TrimRight(n));
    if n != line {
      var k :| 0 <= k < |settings| && n == Assignment(settings[k]) && MatchKey(line) == Some(settings[k].key);
      AssignmentMatches(settings[k]);
    } else if exists k :: 0 <= k < |settings| && MatchKey(n) == Some(settings[k].key) {
      var k :| 0 <= k < |settings| && MatchKey(n) == Some(settings[k].key);
      AssignmentMatches(settings[k]);
    }
  }
}
