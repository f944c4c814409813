/** Command-line flags of cmd/void-initfs/flags.go: the grammar of Go's flag package, the checks after
    it, and why the order of self-contained flags does not matter. */
module Flags {
  import opened Options
  import opened Strings

  datatype Field =
    | Bios | Efi | Libc | Packages | Output | Image
    | ReinstallBootloader | BinaryPath | UpdateXbps | AssumeYes | Force

  datatype Value = Switch(on: bool) | Text(text: string)

  predicate IsBool(f: Field) {
    !f.Libc? && !f.Packages? && !f.Output? && !f.Image? && !f.BinaryPath?
  }

  datatype Config = Config(
    bios: bool, efi: bool, libc: string, packages: string, output: string, image: string,
    reinstallBootloader: bool, binaryPath: string, updateXbps: bool, assumeYes: bool, force: bool)

  const DEFAULTS := Config(false, false, "glibc", "", "", "", false, ".", false, false, false)

  function Get(c: Config, f: Field): Value {
    match f
    case Bios => Switch(c.bios)
    case Efi => Switch(c.efi)
    case Libc => Text(c.libc)
    case Packages => Text(c.packages)
    case Output => Text(c.output)
    case Image => Text(c.image)
    case ReinstallBootloader => Switch(c.reinstallBootloader)
    case BinaryPath => Text(c.binaryPath)
    case UpdateXbps => Switch(c.updateXbps)
    case AssumeYes => Switch(c.assumeYes)
    case Force => Switch(c.force)
  }

  predicate Fits(f: Field, v: Value) { v.Switch? == IsBool(f) }

  /** Storing a flag's value through the pointer registered for it. */
  function Put(c: Config, f: Field, v: Value): Config
    requires Fits(f, v)
  {
    match f
    case Bios => c.(bios := v.on)
    case Efi => c.(efi := v.on)
    case Libc => c.(libc := v.text)
    case Packages => c.(packages := v.text)
    case Output => c.(output := v.text)
    case Image => c.(image := v.text)
    case ReinstallBootloader => c.(reinstallBootloader := v.on)
    case BinaryPath => c.(binaryPath := v.text)
    case UpdateXbps => c.(updateXbps := v.on)
    case AssumeYes => c.(assumeYes := v.on)
    case Force => c.(force := v.on)
  }

  /** A stored value is read back, and nothing else changes. */
  lemma PutGet(c: Config, f: Field, v: Value, g: Field)
    requires Fits(f, v)
    ensures Get(Put(c, f, v), g) == if g == f then v else Get(c, g)
  {
    match f {
      case Bios => case Efi => case Libc => case Packages => case Output => case Image =>
      case ReinstallBootloader => case BinaryPath => case UpdateXbps => case AssumeYes => case Force =>
    }
  }

  lemma SameFieldsSameConfig(a: Config, b: Config)
    requires forall f :: Get(a, f) == Get(b, f)
    ensures a == b
  {
    assert Get(a, Bios) == Get(b, Bios) && Get(a, Efi) == Get(b, Efi) && Get(a, Libc) == Get(b, Libc);
    assert Get(a, Packages) == Get(b, Packages) && Get(a, Output) == Get(b, Output);
    assert Get(a, Image) == Get(b, Image) && Get(a, ReinstallBootloader) == Get(b, ReinstallBootloader);
    assert Get(a, BinaryPath) == Get(b, BinaryPath) && Get(a, UpdateXbps) == Get(b, UpdateXbps);
    assert Get(a, AssumeYes) == Get(b, AssumeYes) && Get(a, Force) == Get(b, Force);
  }

  // ---------------------------------------------------------------- the flag package

  /** The registered names. */
  type Table = string -> Option<Field>

  /** `parseFlags` registers these. */
  function Registered(name: string): Option<Field> {
    if name == "bios" then Some(Bios)
    else if name == "efi" then Some(Efi)
    else if name == "libc" then Some(Libc)
    else if name == "p" || name == "packages" then Some(Packages)
    else if name == "o" || name == "output" then Some(Output)
    else if name == "i" || name == "image" then Some(Image)
    else if name == "reinstall-bootloader" then Some(ReinstallBootloader)
    else if name == "binary-path" then Some(BinaryPath)
    else if name == "update-xbps" then Some(UpdateXbps)
    else if name == "y" || name == "yes" then Some(AssumeYes)
    else if name == "f" || name == "force" then Some(Force)
    else None
  }

  /** `strconv.ParseBool`. */
  function ParseBool(s: string): Option<bool> {
    if s in {"1", "t", "T", "TRUE", "true", "True"} then Some(true)
    else if s in {"0", "f", "F", "FALSE", "false", "False"} then Some(false)
    else None
  }

  /** A flag's name, and the value after an '='; an '=' cannot come first. */
  function CutValue(s: string): (string, Option<string>)
    requires s != ""
  {
    match IndexFrom(s, "=", 1)
    case Some(i) => (s[..i], Some(s[i + 1..]))
    case None => (s, None)
  }

  /** Where parsing stopped, or that it failed. */
  datatype Parsed = Stopped(config: Config, rest: seq<string>) | Bad

  /** `FlagSet.Parse`, one argument at a time. */
  function Parse(table: Table, parseBool: string -> Option<bool>, c: Config, args: seq<string>): Parsed
    decreases |args|
  {
    if args == [] || |args[0]| < 2 || args[0][0] != '-' then Stopped(c, args)
    else if args[0] == "--" then Stopped(c, args[1..])
    else
      var name := if args[0][1] == '-' then args[0][2..] else args[0][1..];
      if name[0] == '-' || name[0] == '=' then Bad
      else
        var (name, value) := CutValue(name);
        match table(name)
        case None => Bad
        case Some(f) =>
          if IsBool(f) then
            var b := if value.Some? then parseBool(value.value) else Some(true);
            if b.None? then Bad else Parse(table, parseBool, Put(c, f, Switch(b.value)), args[1..])
          else if value.Some? then Parse(table, parseBool, Put(c, f, Text(value.value)), args[1..])
          else if |args| > 1 then Parse(table, parseBool, Put(c, f, Text(args[1])), args[2..])
          else Bad
  }

  // ---------------------------------------------------------------- the checks

  predicate LooksLikeFlag(s: string) { s != "" && s[0] == '-' }

  datatype Complaint =
    | Unparsable | UnexpectedArguments
    | Swallowed
    | BiosAndEfi
    | ImageAndOutput | UpdateXbpsWithImage | ForceWithImage | NoSuchImage
    | ReinstallWithoutImage | NoOutput | OutputExists | NoLayout | BadLibc

  /** `checkSwallowedValues`. */
  predicate SwallowedValue(c: Config) {
    LooksLikeFlag(c.output) || LooksLikeFlag(c.image) || LooksLikeFlag(c.libc) || LooksLikeFlag(c.binaryPath)
  }

  /** `validate`: the first complaint. `exists_` says which paths exist. */
  function Validate(c: Config, exists_: string -> bool): Option<Complaint> {
    if c.bios && c.efi then Some(BiosAndEfi)
    else if c.image != "" then
      if c.output != "" then Some(ImageAndOutput)
      else if c.updateXbps then Some(UpdateXbpsWithImage)
      else if c.force then Some(ForceWithImage)
      else if !exists_(c.image) then Some(NoSuchImage)
      else None
    else if c.reinstallBootloader then Some(ReinstallWithoutImage)
    else if c.output == "" then Some(NoOutput)
    else if exists_(c.output) && !c.force then Some(OutputExists)
    else if !c.bios && !c.efi then Some(NoLayout)
    else if c.libc != "glibc" && c.libc != "musl" then Some(BadLibc)
    else None
  }

  datatype Outcome = Accepted(config: Config) | Rejected(complaint: Complaint)

  function Checked(p: Parsed, exists_: string -> bool): Outcome {
    if p.Bad? then Rejected(Unparsable)
    else if p.rest != [] then Rejected(UnexpectedArguments)
    else if SwallowedValue(p.config) then Rejected(Swallowed)
    else
      match Validate(p.config, exists_)
      case Some(complaint) => Rejected(complaint)
      case None => Accepted(p.config)
  }

  /** What is accepted is exactly one of two things: an image to reuse that exists, with no option of the
      other path, or an image to build with one layout, a known libc and a target that is free or may
      be overwritten; and no value that looks like a flag. */
  lemma AcceptedExactly(c: Config, exists_: string -> bool)
    ensures Checked(Stopped(c, []), exists_).Accepted? <==>
            && !SwallowedValue(c)
            && (|| (&& c.image != "" && exists_(c.image) && c.output == ""
                    && !c.updateXbps && !c.force && (!c.bios || !c.efi))
                || (&& c.image == "" && c.output != "" && (exists_(c.output) ==> c.force)
                    && !c.reinstallBootloader && c.bios == !c.efi && c.libc in {"glibc", "musl"}))
  {
  }

  /** A complaint is never wrong about what it complains of. */
  lemma ComplaintsAreTrue(c: Config, exists_: string -> bool)
    requires Checked(Stopped(c, []), exists_).Rejected?
    ensures match Checked(Stopped(c, []), exists_).complaint
            case Swallowed => SwallowedValue(c)
            case BiosAndEfi => c.bios && c.efi
            case ImageAndOutput => c.image != "" && c.output != ""
            case UpdateXbpsWithImage => c.image != "" && c.updateXbps
            case ForceWithImage => c.image != "" && c.force
            case NoSuchImage => c.image != "" && !exists_(c.image)
            case ReinstallWithoutImage => c.image == "" && c.reinstallBootloader
            case NoOutput => c.image == "" && c.output == ""
            case OutputExists => c.output != "" && exists_(c.output) && !c.force
            case NoLayout => c.image == "" && !c.bios && !c.efi
            case BadLibc => c.image == "" && c.libc != "glibc" && c.libc != "musl"
            case _ => false
  {
  }

  /** `parseFlags`. */
  function ParseFlags(args: seq<string>, exists_: string -> bool): Outcome {
    Checked(Parse(Registered, ParseBool, DEFAULTS, args), exists_)
  }

  // ---------------------------------------------------------------- self-contained groups

  /** Arguments that belong together: a flag by itself, with its value after '=', or with its value in
      the next argument. `double` is the spelling with two dashes. */
  datatype Group =
    | Alone(double: bool, name: string)
    | Joined(double: bool, name: string, text: string)
    | Spaced(double: bool, name: string, text: string)

  function Dashed(g: Group): string {
    (if g.double then "--" else "-") + g.name
  }

  function Tokens(g: Group): seq<string> {
    match g
    case Alone(_, _) => [Dashed(g)]
    case Joined(_, _, text) => [Dashed(g) + "=" + text]
    case Spaced(_, _, text) => [Dashed(g), text]
  }

  function AllTokens(groups: seq<Group>): seq<string> {
    if groups == [] then [] else Tokens(groups[0]) + AllTokens(groups[1..])
  }

  /** A name that a flag can be registered under. */
  predicate Registrable(name: string) {
    name != "" && name[0] != '-' && '=' !in name
  }

  /** A boolean flag by itself or with a readable value, or a string flag with its value. */
  predicate SelfContained(table: Table, parseBool: string -> Option<bool>, g: Group) {
    && Registrable(g.name) && table(g.name).Some?
    && match g
       case Alone(_, _) => IsBool(table(g.name).value)
       case Joined(_, _, text) => IsBool(table(g.name).value) ==> parseBool(text).Some?
       case Spaced(_, _, _) => !IsBool(table(g.name).value)
  }

  function FieldOf(table: Table, parseBool: string -> Option<bool>, g: Group): Field
    requires SelfContained(table, parseBool, g)
  {
    table(g.name).value
  }

  function ValueOf(table: Table, parseBool: string -> Option<bool>, g: Group): (v: Value)
    requires SelfContained(table, parseBool, g)
    ensures Fits(FieldOf(table, parseBool, g), v)
  {
    match g
    case Alone(_, _) => Switch(true)
    case Joined(_, _, text) =>
      if IsBool(FieldOf(table, parseBool, g)) then Switch(parseBool(text).value) else Text(text)
    case Spaced(_, _, text) => Text(text)
  }
}
