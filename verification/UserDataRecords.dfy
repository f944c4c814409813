/** Validated user data (cmd/void-init/userdata.go) and the records built from it by concatenation
    (cmd/void-init/apply.go): why validation makes them safe to split again. */
module UserDataRecords {
  import opened Options
  import opened Strings
  import opened ManagedFile

  datatype UserData = UserData(hostname: string, fqdn: string, user: string, password: string, keys: seq<string>)

  // ---------------------------------------------------------------- validation

  /** `unicode.IsControl`. */
  predicate IsControl(c: char) {
    c < ' ' || '\U{7F}' <= c <= '\U{9F}'
  }

  /** `unicode.IsSpace`. */
  predicate IsSpace(c: char) {
    c == ' ' || '\t' <= c <= '\r' || c == '\U{85}' || c == '\U{A0}' || c == '\U{1680}'
    || '\U{2000}' <= c <= '\U{200A}' || c == '\U{2028}' || c == '\U{2029}' || c == '\U{202F}'
    || c == '\U{205F}' || c == '\U{3000}'
  }

  predicate IsSpaceOrControl(c: char) {
    IsSpace(c) || IsControl(c)
  }

  predicate AnySpaceOrControl(s: string) {
    exists i | 0 <= i < |s| :: IsSpaceOrControl(s[i])
  }

  predicate AnyControl(s: string) {
    exists i | 0 <= i < |s| :: IsControl(s[i])
  }

  datatype Complaint = BadHostname | BadFqdn | BadUser | BadPassword | BadKey(index: nat)

  /** The first key with a control character, from position `from` on. */
  function FirstBadKey(keys: seq<string>, from: nat): (r: Option<nat>)
    requires from <= |keys|
    ensures r.None? <==> forall i | from <= i < |keys| :: !AnyControl(keys[i])
    ensures r.Some? ==> from <= r.value < |keys| && AnyControl(keys[r.value])
                        && forall i | from <= i < r.value :: !AnyControl(keys[i])
    decreases |keys| - from
  {
    if from == |keys| then None
    else if AnyControl(keys[from]) then Some(from)
    else FirstBadKey(keys, from + 1)
  }

  predicate UnsafeUser(user: string) {
    AnySpaceOrControl(user) || ':' in user || "-" <= user
  }

  /** `validate`: the first complaint, in the order of the checks. */
  function Validate(u: UserData): Option<Complaint> {
    if AnySpaceOrControl(u.hostname) then Some(BadHostname)
    else if AnySpaceOrControl(u.fqdn) then Some(BadFqdn)
    else if UnsafeUser(u.user) then Some(BadUser)
    else if AnySpaceOrControl(u.password) then Some(BadPassword)
    else
      match FirstBadKey(u.keys, 0)
      case Some(i) => Some(BadKey(i))
      case None => None
  }

  /** A character that is neither a control character nor white space. */
  predicate IsVisible(c: char) {
    && c > ' ' && !('\U{7F}' <= c <= '\U{A0}') && !('\U{2000}' <= c <= '\U{200A}')
    && c !in {'\U{1680}', '\U{2028}', '\U{2029}', '\U{202F}', '\U{205F}', '\U{3000}'}
  }

  /** Exactly these user data are accepted: host name, domain name and password are made of visible
      characters, so is the user name, without a colon and not starting with a dash, and keys may have
      white space, but no control characters. */
  lemma AcceptedExactly(u: UserData)
    ensures Validate(u).None? <==>
            && (forall c | c in u.hostname + u.fqdn + u.user + u.password :: IsVisible(c))
            && (forall c | c in u.user :: c != ':') && (u.user != "" ==> u.user[0] != '-')
            && (forall i, c | 0 <= i < |u.keys| && c in u.keys[i] :: c >= ' ' && !('\U{7F}' <= c <= '\U{9F}'))
  {
    VisibleExactly(u.hostname);
    VisibleExactly(u.fqdn);
    VisibleExactly(u.user);
    VisibleExactly(u.password);
    assert "-" <= u.user <==> u.user != "" && u.user[0] == '-';
    forall i | 0 <= i < |u.keys|
      ensures !AnyControl(u.keys[i]) <==> forall c | c in u.keys[i] :: c >= ' ' && !('\U{7F}' <= c <= '\U{9F}')
    {
      ControlExactly(u.keys[i]);
    }
  }

  lemma VisibleExactly(s: string)
    ensures !AnySpaceOrControl(s) <==> forall c | c in s :: IsVisible(c)
  {
    forall i | 0 <= i < |s| ensures IsVisible(s[i]) <==> !IsSpaceOrControl(s[i]) {}
    assert forall i | 0 <= i < |s| :: s[i] in s;
  }

  lemma ControlExactly(s: string)
    ensures !AnyControl(s) <==> forall c | c in s :: c >= ' ' && !('\U{7F}' <= c <= '\U{9F}')
  {
    assert forall i | 0 <= i < |s| :: s[i] in s;
  }

  /** And the complaint names a value that is not as it should be, the first such key. */
  lemma ComplaintsAreTrue(u: UserData)
    requires Validate(u).Some?
    ensures match Validate(u).value
            case BadHostname => exists c :: c in u.hostname && !IsVisible(c)
            case BadFqdn => exists c :: c in u.fqdn && !IsVisible(c)
            case BadUser => (exists c :: c in u.user && (!IsVisible(c) || c == ':')) || "-" <= u.user
            case BadPassword => exists c :: c in u.password && !IsVisible(c)
            case BadKey(i) => i < |u.keys| && AnyControl(u.keys[i]) && forall j | 0 <= j < i :: !AnyControl(u.keys[j])
  {
    VisibleExactly(u.hostname);
    VisibleExactly(u.fqdn);
    VisibleExactly(u.user);
    VisibleExactly(u.password);
  }

  /** Accepted values sit on one line each, and the user name holds no record separator. */
  lemma AcceptedValuesAreSingleLines(u: UserData)
    requires Validate(u).None?
    ensures '\n' !in u.hostname && '\n' !in u.fqdn && '\n' !in u.user && '\n' !in u.password
    ensures ':' !in u.user && (u.user != "" ==> u.user[0] != '-')
    ensures forall i | 0 <= i < |u.keys| :: '\n' !in u.keys[i]
  {
    NoControlNoNewline();
    if u.user != "" {
      assert u.user[..1] == [u.user[0]];
    }
  }

  lemma NoControlNoNewline()
    ensures forall s: string :: !AnyControl(s) ==> '\n' !in s
    ensures forall s: string :: !AnySpaceOrControl(s) ==> '\n' !in s
  {
    assert IsControl('\n');
  }

  // ---------------------------------------------------------------- the chpasswd record

  /** What `applyPassword` pipes into `chpasswd -e`. */
  function Record(user: string, hash: string): string {
    user + ":" + hash + "\n"
  }

  /** How a reader takes the record apart: its lines, each cut at the first colon. */
  function CutAtColon(line: string): Option<(string, string)> {
    match IndexOf(line, ":")
    case Some(i) => Some((line[..i], line[i + 1..]))
    case None => None
  }

  /** The record is one line that splits back into user and hash, if and only if there is no newline in
      either and no colon in the user name. */
  lemma RecordRoundTrip(user: string, hash: string)
    ensures (&& Split(Record(user, hash), '\n') == [user + ":" + hash, ""]
             && CutAtColon(user + ":" + hash) == Some((user, hash)))
            <==> ('\n' !in user && '\n' !in hash && ':' !in user)
  {
    var line := user + ":" + hash;
    assert Record(user, hash) == line + ['\n'] + "";
    SplitConcat(line, '\n', "");
    if '\n' !in line {
      SplitPlain(line, '\n');
    } else {
      assert line !in Split(Record(user, hash), '\n');
    }
    assert line[|user|..|user| + 1] == ":";
    if ':' !in user {
      forall j: nat | j < |user| ensures !OccursAt(line, ":", j) {
        assert line[j..j + 1] == [user[j]];
      }
      IndexIsFirst(line, ":", |user|);
      assert line[..|user|] == user && line[|user| + 1..] == hash;
    } else {
      var j :| 0 <= j < |user| && user[j] == ':';
      assert line[j..j + 1] == ":";
      assert OccursAt(line, ":", j);
    }
  }

  /** For user data that validation accepted, the record splits back. */
  lemma AcceptedRecordRoundTrip(u: UserData)
    requires Validate(u).None?
    ensures Split(Record(u.user, u.password), '\n') == [u.user + ":" + u.password, ""]
    ensures CutAtColon(u.user + ":" + u.password) == Some((u.user, u.password))
  {
    AcceptedValuesAreSingleLines(u);
    RecordRoundTrip(u.user, u.password);
  }

  // ---------------------------------------------------------------- authorized_keys

  /** The content that `applySSHAuthorizedKeys` renders. */
  function KeysContent(keys: seq<string>): string {
    Join(keys, '\n') + "\n\n" + MARKER
  }

  /** `applySSHAuthorizedKeys` once the user's directory is there. */
  method WriteAuthorizedKeys(file: File, keys: seq<string>, faults: Faults, chownFails: bool) returns (ok: bool)
    modifies file
    ensures ok == (!faults.readFails && faults.write.Written? && !faults.chmodFails && !chownFails)
    ensures file.content ==
            if faults.readFails then old(file.content)
            else AfterWrite(old(file.content), Managed(old(file.content), KeysContent(keys)), faults.write)
  {
    var content := Join(keys, '\n') + "\n\n" + MARKER;
    ok := file.WriteManagedFile(content, faults);
    if ok && chownFails {
      return false;
    }
  }

  lemma {:induction false} JoinUnlines(lines: seq<string>)
    requires lines != []
    ensures Unlines(lines) == Join(lines, '\n') + "\n"
  {
    if |lines| == 1 {
      assert Unlines(lines) == lines[0] + ['\n'] + "";
    } else {
      JoinUnlines(lines[1..]);
      var j := Join(lines[1..], '\n');
      assert lines[0] + ['\n'] + (j + "\n") == lines[0] + ['\n'] + j + "\n";
    }
  }

  lemma KeysBody(keys: seq<string>)
    requires keys != []
    ensures KeysContent(keys) == Unlines(keys + [""]) + MARKER + ""
  {
    UnlinesConcat(keys, [""]);
    JoinUnlines(keys);
    var j := Join(keys, '\n');
    assert Unlines([""]) == "" + ['\n'] + "";
    assert j + "\n" + "\n" == j + "\n\n";
  }

  /** A text without newlines occurs among lines exactly when it occurs in one of them. */
  lemma {:induction false} MarkerInLines(lines: seq<string>)
    ensures Contains(Unlines(lines), MARKER) <==> exists i | 0 <= i < |lines| :: Contains(lines[i], MARKER)
  {
    if lines == [] {
      MarkerShape();
    } else {
      MarkerInLines(lines[1..]);
      MarkerInFirstLine(lines[0], Unlines(lines[1..]));
      assert (exists i | 0 <= i < |lines| :: Contains(lines[i], MARKER)) <==>
             Contains(lines[0], MARKER) || exists i | 0 <= i < |lines[1..]| :: Contains(lines[1..][i], MARKER) by {
        assert forall i | 0 <= i < |lines[1..]| :: lines[1..][i] == lines[i + 1];
        assert forall i | 1 <= i < |lines| :: lines[i] == lines[1..][i - 1];
      }
    }
  }

  lemma OccursLater(head: string, tail: string, j: nat)
    ensures OccursAt(head + tail, MARKER, |head| + j) <==> OccursAt(tail, MARKER, j)
  {
    if |head| + j + |MARKER| <= |head + tail| {
      assert (head + tail)[|head| + j..|head| + j + |MARKER|] == tail[j..j + |MARKER|];
    }
  }

  lemma MarkerInFirstLine(line: string, rest: string)
    ensures Contains(line + ['\n'] + rest, MARKER) <==> Contains(line, MARKER) || Contains(rest, MARKER)
  {
    var head := line + ['\n'];
    var text := head + rest;
    if Contains(line, MARKER) {
      ContainsGrows(line, ['\n'], MARKER);
      ContainsGrows(head, rest, MARKER);
    }
    if Contains(rest, MARKER) {
      var j: nat :| OccursAt(rest, MARKER, j);
      OccursLater(head, rest, j);
    }
    if Contains(text, MARKER) {
      var k: nat :| OccursAt(text, MARKER, k);
      if k < |head| {
        OccursInBody(head, rest, k);
        NewlineMakesNoMarker(line);
        assert Contains(head, MARKER);
      } else {
        OccursLater(head, rest, k - |head|);
      }
    }
  }

  /** The complete lines before the marker, as sshd reads them. */
  function LinesBeforeMarker(file: string): seq<string> {
    var pieces := Split(BeforeMarker(file), '\n');
    pieces[..|pieces| - 1]
  }

  lemma KeysReadBack(existing: Option<string>, keys: seq<string>)
    requires keys != []
    ensures var body := Unlines(keys + [""]);
            BeforeMarker(Managed(existing, KeysContent(keys))) ==
            if Contains(body, MARKER) then BeforeMarker(body) else body
  {
    KeysBody(keys);
    UnlinesEnd(keys + [""]);
    MarkerAfterBody(Unlines(keys + [""]), "");
    BeforeMarkerOfManaged(existing, KeysContent(keys));
  }

  /** Cut at a marker of its own, the body no longer splits into all its lines. */
  lemma CutBodyIsShorter(lines: seq<string>)
    requires Contains(Unlines(lines), MARKER)
    ensures var pieces := Split(BeforeMarker(Unlines(lines)), '\n'); pieces[..|pieces| - 1] != lines
  {
    var before := BeforeMarker(Unlines(lines));
    var pieces := Split(before, '\n');
    MarkerShape();
    SizeOfSplit(before);
    SizeOfUnlines(lines);
    assert Size(pieces) > Size(pieces[..|pieces| - 1]);
  }

  lemma MarkerInKeys(keys: seq<string>)
    ensures Contains(Unlines(keys + [""]), MARKER) <==> exists i | 0 <= i < |keys| :: Contains(keys[i], MARKER)
  {
    var lines := keys + [""];
    MarkerInLines(lines);
    MarkerShape();
    assert lines[|keys|] == "" && !Contains("", MARKER);
    assert forall i | 0 <= i < |keys| :: lines[i] == keys[i];
  }

  /** Over any previous file, the lines before the marker are exactly the keys and one blank line, if
      and only if no key contains the marker. */
  lemma KeysRoundTrip(existing: Option<string>, keys: seq<string>)
    requires keys != [] && forall i | 0 <= i < |keys| :: '\n' !in keys[i]
    ensures LinesBeforeMarker(Managed(existing, KeysContent(keys))) == keys + [""] <==>
            forall i | 0 <= i < |keys| :: !Contains(keys[i], MARKER)
  {
    var lines := keys + [""];
    KeysReadBack(existing, keys);
    MarkerInKeys(keys);
    if Contains(Unlines(lines), MARKER) {
      CutBodyIsShorter(lines);
    } else {
      SplitUnlines(lines);
      assert (lines + [""])[..|lines|] == lines;
    }
  }

  lemma AcceptedKeysRoundTrip(u: UserData, existing: Option<string>)
    requires Validate(u).None? && u.keys != []
    ensures LinesBeforeMarker(Managed(existing, KeysContent(u.keys))) == u.keys + [""] <==>
            forall i | 0 <= i < |u.keys| :: !Contains(u.keys[i], MARKER)
  {
    AcceptedValuesAreSingleLines(u);
    KeysRoundTrip(existing, u.keys);
  }
}
