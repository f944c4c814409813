/** The assignment pattern of cmd/void-initfs/bootloader.go, `^\s*#?\s*([A-Z_]+)=`, as a scanner. */
module KeyPattern {
  import opened Options
  import opened Strings

  /** Character classes: `\s` and `[A-Z_]` of Go's regexp syntax, the blanks that separate words in the
      shell, and the characters of a shell variable's name. */
  datatype Class = Space | Key | Blank | Name

  predicate In(c: char, k: Class) {
    match k
    case Space => c == ' ' || c == '\t' || c == '\n' || c == '\r' || c == '\U{0C}'
    case Key => 'A' <= c <= 'Z' || c == '_'
    case Blank => c == ' ' || c == '\t'
    case Name => 'A' <= c <= 'Z' || c == '_' || 'a' <= c <= 'z' || '0' <= c <= '9'
  }

  predicate All(s: string, k: Class) {
    forall i | 0 <= i < |s| :: In(s[i], k)
  }

  /** `s` without its longest prefix of characters in the class. */
  function Strip(s: string, k: Class): (r: string)
    ensures |r| <= |s| && s[|s| - |r|..] == r && All(s[..|s| - |r|], k)
    ensures r != "" ==> !In(r[0], k)
  {
    if s != "" && In(s[0], k) then Strip(s[1..], k) else s
  }

  /** The text before the first '='. */
  function Head(line: string): Option<string> {
    match IndexOf(line, "=")
    case Some(i) => Some(line[..i])
    case None => None
  }

  /** An optional '#' and the space after it. */
  function StripHash(a: string): string {
    if a != "" && a[0] == '#' then Strip(a[1..], Space) else a
  }

  /** The key in a head of the form `\s*#?\s*KEY`. */
  function KeyIn(head: string): Option<string> {
    var b := StripHash(Strip(head, Space));
    if b != "" && All(b, Key) then Some(b) else None
  }

  /** The submatch of `^\s*#?\s*([A-Z_]+)=`, as a scanner. None of the classes contains '=', so the one
      matched is the first of the line. */
  function MatchKey(line: string): Option<string> {
    match Head(line)
    case Some(h) => KeyIn(h)
    case None => None
  }

  /** A way to cut up the text before the '=' as the pattern says. */
  predicate CutHead(head: string, space1: string, hash: string, space2: string, key: string) {
    && head == space1 + (hash + (space2 + key))
    && All(space1, Space) && (hash == "" || hash == "#") && All(space2, Space)
    && key != "" && All(key, Key)
  }

  /** What it means for the pattern to match with this key. */
  ghost predicate Matches(line: string, key: string) {
    exists space1, hash, space2, head, rest ::
      CutHead(head, space1, hash, space2, key) && line == head + "=" + rest
  }

  lemma {:induction false} StripSplits(s: string, k: Class, r: string)
    requires All(s, k) && (r != "" ==> !In(r[0], k))
    ensures Strip(s + r, k) == r
  {
    if s == "" {
      assert s + r == r;
    } else {
      assert (s + r)[1..] == s[1..] + r;
      StripSplits(s[1..], k, r);
    }
  }

  lemma HeadSplits(head: string, rest: string)
    requires '=' !in head
    ensures Head(head + "=" + rest) == Some(head)
  {
    var line := head + "=" + rest;
    assert OccursAt(line, "=", |head|);
    forall j: nat | j < |head| ensures !OccursAt(line, "=", j) {
      assert line[j..j + 1] == [head[j]];
    }
    IndexIsFirst(line, "=", |head|);
    assert line[..|head|] == head;
  }

  lemma HeadMeans(line: string)
    requires Head(line).Some?
    ensures '=' !in Head(line).value
    ensures line == Head(line).value + "=" + line[|Head(line).value| + 1..]
  {
    var i := IndexOf(line, "=").value;
    forall j: nat | j < i ensures line[j] != '=' {
      assert !OccursAt(line, "=", j);
      assert line[j..j + 1] == [line[j]];
    }
    assert line[i..i + 1] == "=";
    assert line == line[..i] + line[i..i + 1] + line[i + 1..];
  }

  lemma StripCuts(s: string, k: Class) returns (stripped: string)
    ensures All(stripped, k) && s == stripped + Strip(s, k)
  {
    stripped := s[..|s| - |Strip(s, k)|];
    SplitAt(s, |s| - |Strip(s, k)|);
  }

  lemma SplitAt(s: string, i: nat)
    requires i <= |s|
    ensures s == s[..i] + s[i..]
  {
  }

  lemma StripHashCuts(a: string) returns (hash: string, space2: string)
    ensures (hash == "" || hash == "#") && All(space2, Space)
    ensures a == hash + (space2 + StripHash(a))
  {
    if a != "" && a[0] == '#' {
      hash := "#";
      space2 := StripCuts(a[1..], Space);
      assert a == [a[0]] + a[1..];
    } else {
      hash, space2 := "", "";
    }
  }

  lemma KeyInMeans(head: string) returns (space1: string, hash: string, space2: string)
    requires KeyIn(head).Some?
    ensures CutHead(head, space1, hash, space2, KeyIn(head).value)
  {
    space1 := StripCuts(head, Space);
    hash, space2 := StripHashCuts(Strip(head, Space));
  }

  lemma StripHashFinds(space2: string, key: string)
    requires All(space2, Space) && key != "" && !In(key[0], Space)
    ensures StripHash("#" + (space2 + key)) == key
  {
    assert ("#" + (space2 + key))[1..] == space2 + key;
    StripSplits(space2, Space, key);
  }

  lemma StripBoth(space1: string, space2: string, key: string)
    requires All(space1, Space) && All(space2, Space) && key != "" && !In(key[0], Space)
    ensures Strip(space1 + (space2 + key), Space) == key
  {
    assert space1 + (space2 + key) == (space1 + space2) + key;
    StripSplits(space1 + space2, Space, key);
  }

  lemma StripsToKey(space1: string, hash: string, space2: string, key: string)
    requires All(space1, Space) && (hash == "" || hash == "#") && All(space2, Space)
    requires key != "" && All(key, Key)
    ensures StripHash(Strip(space1 + (hash + (space2 + key)), Space)) == key
  {
    assert !In(key[0], Space) && key[0] != '#';
    if hash == "#" {
      StripSplits(space1, Space, hash + (space2 + key));
      StripHashFinds(space2, key);
    } else {
      assert hash + (space2 + key) == space2 + key;
      StripBoth(space1, space2, key);
    }
  }

  lemma KeyInFinds(head: string, space1: string, hash: string, space2: string, key: string)
    requires CutHead(head, space1, hash, space2, key)
    ensures KeyIn(head) == Some(key)
  {
    StripsToKey(space1, hash, space2, key);
  }

  lemma NoEqualsInHead(head: string, space1: string, hash: string, space2: string, key: string)
    requires CutHead(head, space1, hash, space2, key)
    ensures '=' !in head
  {
    assert '=' !in space1 && '=' !in space2 && '=' !in key;
  }

  /** The scanner finds a key exactly when the pattern matches with that key. */
  lemma ScannerIsPattern(line: string, key: string)
    ensures MatchKey(line) == Some(key) <==> Matches(line, key)
  {
    if MatchKey(line) == Some(key) {
      HeadMeans(line);
      var space1, hash, space2 := KeyInMeans(Head(line).value);
    }
    if Matches(line, key) {
      var space1, hash, space2, head, rest :|
        CutHead(head, space1, hash, space2, key) && line == head + "=" + rest;
      NoEqualsInHead(head, space1, hash, space2, key);
      HeadSplits(head, rest);
      KeyInFinds(head, space1, hash, space2, key);
    }
  }

  /** Nothing up to the first '=' is ever trimmed. */
  lemma HeadOfTrimmed(line: string)
    ensures Head(TrimRight(line)) == Head(line)
    ensures Head(line).Some? ==>
              TrimRight(line) == Head(line).value + "=" + TrimRight(line[|Head(line).value| + 1..])
  {
    if Head(line).Some? {
      HeadMeans(line);
      var head, rest := Head(line).value, line[|Head(line).value| + 1..];
      TrimConcat(head + "=", rest);
      TrimIs(head + "=", head + "=");
      assert TrimRight(line) == head + "=" + TrimRight(rest);
      HeadSplits(head, TrimRight(rest));
    } else if Contains(TrimRight(line), "=") {
      TrimContains(line, "=");
    }
  }
}
