/** What a command line of cmd/void-initfs means: which field each flag stores, and which arguments are
    accepted as which configuration. */
module FlagMeaning {
  import opened Options
  import opened Strings
  import opened Flags
  import opened FlagOrder

  /** Parsing the arguments from here on, with this configuration so far. */
  function From(c: Config, args: seq<string>): Parsed {
    Parse(Registered, ParseBool, c, args)
  }

  // ---------------------------------------------------------------- flag by flag

  /** Both spellings with one value: `-name text` and `-name=text`, or the same with two dashes. */
  predicate StoresText(double: bool, name: string, c: Config, text: string, after: Config, rest: seq<string>) {
    && From(c, Tokens(Spaced(double, name, text)) + rest) == From(after, rest)
    && From(c, Tokens(Joined(double, name, text)) + rest) == From(after, rest)
  }

  predicate StoresSwitch(double: bool, name: string, c: Config, on: Config, off: Config, rest: seq<string>) {
    && From(c, Tokens(Alone(double, name)) + rest) == From(on, rest)
    && From(c, Tokens(Joined(double, name, "true")) + rest) == From(on, rest)
    && From(c, Tokens(Joined(double, name, "false")) + rest) == From(off, rest)
  }

  lemma TextStored(double: bool, name: string, f: Field, c: Config, text: string, rest: seq<string>)
    requires Registered(name) == Some(f) && !IsBool(f)
    ensures StoresText(double, name, c, text, Put(c, f, Text(text)), rest)
  {
    RegisteredNamesAreRegistrable(name);
    ParseGroup(CLI, c, Spaced(double, name, text), rest);
    ParseGroup(CLI, c, Joined(double, name, text), rest);
  }

  lemma SwitchStored(double: bool, name: string, f: Field, c: Config, rest: seq<string>)
    requires Registered(name) == Some(f) && IsBool(f)
    ensures StoresSwitch(double, name, c, Put(c, f, Switch(true)), Put(c, f, Switch(false)), rest)
  {
    RegisteredNamesAreRegistrable(name);
    ParseGroup(CLI, c, Alone(double, name), rest);
    TruthsAreRead();
    SwitchGiven(double, name, f, c, "true", rest);
    SwitchGiven(double, name, f, c, "false", rest);
  }

  lemma TruthsAreRead()
    ensures ParseBool("true") == Some(true) && ParseBool("false") == Some(false)
  {
  }

  lemma SwitchGiven(double: bool, name: string, f: Field, c: Config, text: string, rest: seq<string>)
    requires Registered(name) == Some(f) && IsBool(f) && Registrable(name) && ParseBool(text).Some?
    ensures From(c, Tokens(Joined(double, name, text)) + rest) == From(Put(c, f, Switch(ParseBool(text).value)), rest)
  {
    ParseGroup(CLI, c, Joined(double, name, text), rest);
  }

  /** What a flag with a value stores, by its name. */
  function WithText(c: Config, name: string, text: string): Config {
    match name
    case "libc" => c.(libc := text)
    case "p" => c.(packages := text)
    case "packages" => c.(packages := text)
    case "o" => c.(output := text)
    case "output" => c.(output := text)
    case "i" => c.(image := text)
    case "image" => c.(image := text)
    case "binary-path" => c.(binaryPath := text)
    case _ => c
  }

  /** What a switch stores, by its name. */
  function WithSwitch(c: Config, name: string, on: bool): Config {
    match name
    case "bios" => c.(bios := on)
    case "efi" => c.(efi := on)
    case "reinstall-bootloader" => c.(reinstallBootloader := on)
    case "update-xbps" => c.(updateXbps := on)
    case "y" => c.(assumeYes := on)
    case "yes" => c.(assumeYes := on)
    case "f" => c.(force := on)
    case "force" => c.(force := on)
    case _ => c
  }

  const TEXT_FLAGS := {"libc", "p", "packages", "o", "output", "i", "image", "binary-path"}
  const SWITCHES := {"bios", "efi", "reinstall-bootloader", "update-xbps", "y", "yes", "f", "force"}

  lemma TextFieldByName(name: string, c: Config, text: string)
    requires name in TEXT_FLAGS
    ensures Registered(name).Some? && !IsBool(Registered(name).value)
    ensures Put(c, Registered(name).value, Text(text)) == WithText(c, name, text)
  {
  }

  function SwitchField(name: string): Field {
    match name
    case "bios" => Bios
    case "efi" => Efi
    case "reinstall-bootloader" => ReinstallBootloader
    case "update-xbps" => UpdateXbps
    case "y" => AssumeYes
    case "yes" => AssumeYes
    case _ => Force
  }

  lemma SwitchNames(name: string)
    requires name in SWITCHES
    ensures Registered(name) == Some(SwitchField(name)) && IsBool(SwitchField(name))
  {
  }

  lemma SwitchByName(name: string, c: Config, on: bool)
    requires name in SWITCHES
    ensures Put(c, SwitchField(name), Switch(on)) == WithSwitch(c, name, on)
  {
  }

  /** Whatever came before and comes after, a flag with a value stores it in the field it stands for, and
      changes nothing else. */
  lemma TextFlag(d: bool, name: string, c: Config, text: string, rest: seq<string>)
    requires name in TEXT_FLAGS
    ensures StoresText(d, name, c, text, WithText(c, name, text), rest)
  {
    TextFieldByName(name, c, text);
    TextStored(d, name, Registered(name).value, c, text, rest);
  }

  /** And so does a switch, by itself or with a value. */
  lemma SwitchFlag(d: bool, name: string, c: Config, rest: seq<string>)
    requires name in SWITCHES
    ensures StoresSwitch(d, name, c, WithSwitch(c, name, true), WithSwitch(c, name, false), rest)
  {
    SwitchNames(name);
    SwitchByName(name, c, true);
    SwitchByName(name, c, false);
    SwitchStored(d, name, SwitchField(name), c, rest);
  }

  /** `-o path` alone asks for a new image at that path. */
  lemma OutputAlone(d: bool, path: string)
    ensures ParsedFrom([Spaced(d, "o", path)]) == Stopped(DEFAULTS.(output := path), [])
  {
    TextFlag(d, "o", DEFAULTS, path, []);
    AllTokensFirst(Spaced(d, "o", path), []);
    assert [Spaced(d, "o", path)] + [] == [Spaced(d, "o", path)];
  }

  /** No other name is a flag. */
  lemma NoOtherFlags(name: string)
    ensures Registered(name).Some? <==>
            name in TEXT_FLAGS || name in SWITCHES
  {
  }

  // ---------------------------------------------------------------- any arguments at all

  /** An argument that the parser takes for a flag. */
  predicate IsFlag(arg: string) {
    |arg| >= 2 && arg[0] == '-' && arg != "--"
  }

  function BodyOf(arg: string): (body: string)
    requires IsFlag(arg)
    ensures body != "" && arg == (if arg[1] == '-' then "--" else "-") + body
  {
    if arg[1] == '-' then arg[2..] else arg[1..]
  }

  /** What must be so for the parser to go on behind a flag. */
  lemma GoesOn(c: Config, args: seq<string>)
    requires args != [] && IsFlag(args[0]) && From(c, args) != Bad
    ensures var body := BodyOf(args[0]);
            && body[0] != '-' && body[0] != '='
            && var (name, value) := CutValue(body);
               && Registered(name).Some?
               && (value.Some? && IsBool(Registered(name).value) ==> ParseBool(value.value).Some?)
               && (value.None? && !IsBool(Registered(name).value) ==> |args| > 1)
  {
  }

  function GroupFor(double: bool, name: string, value: Option<string>, args: seq<string>): Group
    requires value.None? && Registered(name).Some? && !IsBool(Registered(name).value) ==> |args| > 1
  {
    if value.Some? then Joined(double, name, value.value)
    else if Registered(name).None? || IsBool(Registered(name).value) then Alone(double, name)
    else Spaced(double, name, args[1])
  }

  /** The first argument taken as a flag, with the value that belongs to it. */
  lemma FirstGroup(c: Config, args: seq<string>) returns (g: Group, rest: seq<string>)
    requires args != [] && IsFlag(args[0]) && From(c, args) != Bad
    ensures Fine(CLI, g) && args == Tokens(g) + rest
  {
    var body := BodyOf(args[0]);
    GoesOn(c, args);
    NameIsRegistrable(body);
    var (name, value) := CutValue(body);
    g := GroupFor(args[0][1] == '-', name, value, args);
    FirstToken(args[0], g, name, value);
    rest := TokensTaken(args, g);
    GroupIsFine(args, args[0][1] == '-', name, value);
  }

  lemma GroupIsFine(args: seq<string>, double: bool, name: string, value: Option<string>)
    requires Registrable(name) && Registered(name).Some?
    requires value.Some? && IsBool(Registered(name).value) ==> ParseBool(value.value).Some?
    requires value.None? && !IsBool(Registered(name).value) ==> |args| > 1
    ensures Fine(CLI, GroupFor(double, name, value, args))
  {
  }

  lemma TokensTaken(args: seq<string>, g: Group) returns (rest: seq<string>)
    requires args != [] && Tokens(g)[0] == args[0]
    requires g.Spaced? ==> |args| > 1 && g.text == args[1]
    ensures args == Tokens(g) + rest
  {
    rest := if g.Spaced? then args[2..] else args[1..];
  }

  lemma FirstToken(arg: string, g: Group, name: string, value: Option<string>)
    requires IsFlag(arg) && BodyOf(arg) == if value.Some? then name + "=" + value.value else name
    requires g.name == name && g.double == (arg[1] == '-')
    requires g.Joined? <==> value.Some?
    requires g.Joined? ==> g.text == value.value
    ensures Tokens(g)[0] == arg
  {
    var dashes := if g.double then "--" else "-";
    if value.Some? {
      assert dashes + (name + "=" + value.value) == dashes + name + "=" + value.value;
    }
  }

  lemma NameIsRegistrable(body: string)
    requires body != "" && body[0] != '-' && body[0] != '='
    ensures var (name, value) := CutValue(body);
            Registrable(name) && body == if value.Some? then name + "=" + value.value else name
  {
    var (name, value) := CutValue(body);
    forall i | 0 <= i < |name| ensures name[i] != '=' {
      if i > 0 {
        assert !OccursAt(body, "=", i);
        assert body[i..i + 1] == [body[i]];
      }
    }
    if value.Some? {
      assert body[|name|..|name| + 1] == "=";
    }
  }

  /** Arguments that are read to the end: groups and nothing else, or groups and a final "--". */
  ghost predicate MadeOf(args: seq<string>, groups: seq<Group>) {
    AllFine(CLI, groups) && (args == AllTokens(groups) || args == AllTokens(groups) + ["--"])
  }

  lemma AllTokensFirst(g: Group, groups: seq<Group>)
    ensures AllTokens([g] + groups) == Tokens(g) + AllTokens(groups)
  {
    assert ([g] + groups)[1..] == groups;
  }

  lemma StoredFirst(c: Config, g: Group, groups: seq<Group>)
    requires Fine(CLI, g) && AllFine(CLI, groups)
    ensures AllFine(CLI, [g] + groups)
    ensures Stored(CLI, c, [g] + groups) == Stored(CLI, Put(c, FieldIn(CLI, g), ValueIn(CLI, g)), groups)
  {
    assert ([g] + groups)[1..] == groups && ([g] + groups)[0] == g;
  }

  /** Whatever is parsed without complaint and without anything left over is made of self-contained
      groups, and is parsed to what they store. */
  lemma {:induction false} ReadToTheEnd(c: Config, args: seq<string>) returns (groups: seq<Group>)
    requires From(c, args).Stopped? && From(c, args).rest == []
    ensures MadeOf(args, groups) && From(c, args).config == Stored(CLI, c, groups)
    decreases |args|
  {
    if args == [] || !IsFlag(args[0]) {
      groups := [];
      assert args == [] || args == ["--"];
      assert [] + ["--"] == ["--"];
    } else {
      var g, rest := FirstGroup(c, args);
      ParseGroup(CLI, c, g, rest);
      var more := ReadToTheEnd(Put(c, FieldIn(CLI, g), ValueIn(CLI, g)), rest);
      groups := [g] + more;
      AllTokensFirst(g, more);
      StoredFirst(c, g, more);
      TokensAssoc(Tokens(g), AllTokens(more), ["--"]);
    }
  }

  lemma TokensAssoc(a: seq<string>, b: seq<string>, c: seq<string>)
    ensures a + (b + c) == a + b + c
  {
  }

  /** And whatever is made of groups is read to the end. */
  lemma {:induction false} GroupsAreRead(c: Config, args: seq<string>, groups: seq<Group>)
    requires MadeOf(args, groups)
    ensures From(c, args) == Stopped(Stored(CLI, c, groups), [])
    decreases |groups|
  {
    if groups != [] {
      var g, more := groups[0], groups[1..];
      var rest := if args == AllTokens(groups) then AllTokens(more) else AllTokens(more) + ["--"];
      TokensAssoc(Tokens(g), AllTokens(more), ["--"]);
      assert args == Tokens(g) + rest;
      ParseGroup(CLI, c, g, rest);
      GroupsAreRead(Put(c, FieldIn(CLI, g), ValueIn(CLI, g)), rest, more);
    } else if args == AllTokens(groups) + ["--"] {
      assert args == ["--"];
    }
  }

  /** A configuration to reuse an image that is there, or to build one with one layout and a known libc
      at a place that is free or may be overwritten; with no value that looks like a flag. */
  predicate Usable(c: Config, exists_: string -> bool) {
    && (forall s | s in [c.output, c.image, c.libc, c.binaryPath] :: s == "" || s[0] != '-')
    && if c.image != "" then
         exists_(c.image) && c.output == "" && !c.updateXbps && !c.force && !(c.bios && c.efi)
       else
         && c.output != "" && (exists_(c.output) ==> c.force) && !c.reinstallBootloader
         && c.bios != c.efi && c.libc in {"glibc", "musl"}
  }

  lemma UsableExactly(c: Config, exists_: string -> bool)
    ensures Checked(Stopped(c, []), exists_) == Accepted(c) <==> Usable(c, exists_)
  {
    var suspects := [c.output, c.image, c.libc, c.binaryPath];
    assert suspects[0] == c.output && suspects[1] == c.image && suspects[2] == c.libc && suspects[3] == c.binaryPath;
    assert SwallowedValue(c) <==> exists s | s in suspects :: s != "" && s[0] == '-' by {
      assert forall s | s in suspects :: s == c.output || s == c.image || s == c.libc || s == c.binaryPath;
    }
    AcceptedExactly(c, exists_);
  }

  /** From arguments to configuration: a command line is accepted as `c` if and only if it is made of
      self-contained groups that store `c`, and `c` is usable. What the groups store is the subject of
      `LaterGroupWins`, and which field a name stands for that of `TextFlags` and `Switches`. */
  lemma CommandLineAcceptedExactly(args: seq<string>, exists_: string -> bool, c: Config)
    ensures ParseFlags(args, exists_) == Accepted(c) <==>
            && Usable(c, exists_)
            && exists groups :: MadeOf(args, groups) && Stored(CLI, DEFAULTS, groups) == c
  {
    UsableExactly(c, exists_);
    if ParseFlags(args, exists_) == Accepted(c) {
      var groups := ReadToTheEnd(DEFAULTS, args);
      assert MadeOf(args, groups);
    }
    if exists groups :: MadeOf(args, groups) && Stored(CLI, DEFAULTS, groups) == c {
      var groups :| MadeOf(args, groups) && Stored(CLI, DEFAULTS, groups) == c;
      GroupsAreRead(DEFAULTS, args, groups);
    }
  }
}
