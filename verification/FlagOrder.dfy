/** Why the order of self-contained flags does not matter to cmd/void-initfs. */
module FlagOrder {
  import opened Options
  import opened Strings
  import opened Flags

  datatype Parser = Parser(table: Table, parseBool: string -> Option<bool>)

  predicate Fine(p: Parser, g: Group) { SelfContained(p.table, p.parseBool, g) }

  predicate AllFine(p: Parser, groups: seq<Group>) {
    forall i | 0 <= i < |groups| :: Fine(p, groups[i])
  }

  function FieldIn(p: Parser, g: Group): Field requires Fine(p, g) { FieldOf(p.table, p.parseBool, g) }

  function ValueIn(p: Parser, g: Group): (v: Value)
    requires Fine(p, g)
    ensures Fits(FieldIn(p, g), v)
  {
    ValueOf(p.table, p.parseBool, g)
  }

  // ---------------------------------------------------------------- one group

  lemma NameCut(name: string, text: string)
    requires Registrable(name)
    ensures CutValue(name) == (name, None)
    ensures CutValue(name + "=" + text) == (name, Some(text))
  {
    forall i: nat ensures !OccursAt(name, "=", i) {
      if i + 1 <= |name| { assert name[i..i + 1] == [name[i]]; }
    }
    var s := name + "=" + text;
    assert s[|name|..|name| + 1] == "=";
    forall i: nat | i < |name| ensures !OccursAt(s, "=", i) {
      assert s[i..i + 1] == [name[i]];
    }
    assert OccursAt(s, "=", |name|);
    assert s[..|name|] == name && s[|name| + 1..] == text;
  }

  /** The first token of a group is a flag, and what follows the dashes is its name and inline value. */
  lemma TokenShape(g: Group)
    requires Registrable(g.name)
    ensures var s, body := Tokens(g)[0], if g.Joined? then g.name + "=" + g.text else g.name;
            && |s| >= 2 && s[0] == '-' && s != "--"
            && body != "" && body[0] != '-' && body[0] != '='
            && (if s[1] == '-' then s[2..] else s[1..]) == body
  {
    var s, body := Tokens(g)[0], if g.Joined? then g.name + "=" + g.text else g.name;
    assert g.name[0] != '=';
    assert s == (if g.double then "--" else "-") + body;
    if g.double {
      assert s[2..] == body;
    } else {
      assert s[1..] == body;
    }
  }

  /** Parsing a self-contained group stores its value and goes on with the rest. */
  lemma ParseGroup(p: Parser, c: Config, g: Group, rest: seq<string>)
    requires Fine(p, g)
    ensures Parse(p.table, p.parseBool, c, Tokens(g) + rest) ==
            Parse(p.table, p.parseBool, Put(c, FieldIn(p, g), ValueIn(p, g)), rest)
  {
    TokenShape(g);
    NameCut(g.name, if g.Alone? then "" else g.text);
    TokensThenRest(g, rest);
  }

  lemma TokensThenRest(g: Group, rest: seq<string>)
    ensures var args := Tokens(g) + rest;
            && args[0] == Tokens(g)[0]
            && (if g.Spaced? then args[1] == g.text && args[2..] == rest else args[1..] == rest)
  {
  }

  // ---------------------------------------------------------------- all groups

  function Stored(p: Parser, c: Config, groups: seq<Group>): Config
    requires AllFine(p, groups)
    decreases |groups|
  {
    if groups == [] then c
    else Stored(p, Put(c, FieldIn(p, groups[0]), ValueIn(p, groups[0])), groups[1..])
  }

  lemma {:induction false} ParseGroups(p: Parser, c: Config, groups: seq<Group>)
    requires AllFine(p, groups)
    ensures Parse(p.table, p.parseBool, c, AllTokens(groups)) == Stopped(Stored(p, c, groups), [])
    decreases |groups|
  {
    if groups != [] {
      ParseGroup(p, c, groups[0], AllTokens(groups[1..]));
      ParseGroups(p, Put(c, FieldIn(p, groups[0]), ValueIn(p, groups[0])), groups[1..]);
    }
  }

  /** The value the groups give a field: that of the last group that writes it. */
  function LastValue(p: Parser, groups: seq<Group>, f: Field): Option<Value>
    requires AllFine(p, groups)
  {
    if groups == [] then None
    else if LastValue(p, groups[1..], f).Some? then LastValue(p, groups[1..], f)
    else if FieldIn(p, groups[0]) == f then Some(ValueIn(p, groups[0]))
    else None
  }

  lemma {:induction false} StoredField(p: Parser, c: Config, groups: seq<Group>, f: Field)
    requires AllFine(p, groups)
    ensures Get(Stored(p, c, groups), f) ==
            if LastValue(p, groups, f).Some? then LastValue(p, groups, f).value else Get(c, f)
    decreases |groups|
  {
    if groups != [] {
      PutGet(c, FieldIn(p, groups[0]), ValueIn(p, groups[0]), f);
      StoredField(p, Put(c, FieldIn(p, groups[0]), ValueIn(p, groups[0])), groups[1..], f);
    }
  }

  /** Some group writes this value to this field. */
  predicate Writes(p: Parser, groups: seq<Group>, f: Field, v: Value)
    requires AllFine(p, groups)
  {
    exists i | 0 <= i < |groups| :: FieldIn(p, groups[i]) == f && ValueIn(p, groups[i]) == v
  }

  lemma {:induction false} LastValueIsWritten(p: Parser, groups: seq<Group>, f: Field)
    requires AllFine(p, groups)
    ensures LastValue(p, groups, f).Some? ==> Writes(p, groups, f, LastValue(p, groups, f).value)
    ensures LastValue(p, groups, f).None? ==> forall i | 0 <= i < |groups| :: FieldIn(p, groups[i]) != f
  {
    if groups != [] {
      LastValueIsWritten(p, groups[1..], f);
      assert forall i | 1 <= i < |groups| :: groups[i] == groups[1..][i - 1];
      assert forall i | 0 <= i < |groups[1..]| :: groups[1..][i] == groups[i + 1];
    }
  }

  /** No field is given two different values. */
  predicate Consistent(p: Parser, groups: seq<Group>)
    requires AllFine(p, groups)
  {
    forall i, j | 0 <= i < |groups| && 0 <= j < |groups| && FieldIn(p, groups[i]) == FieldIn(p, groups[j]) ::
      ValueIn(p, groups[i]) == ValueIn(p, groups[j])
  }

  /** One list of groups is a rearrangement of the other. */
  predicate Permuted(a: seq<Group>, b: seq<Group>) {
    multiset(a) == multiset(b)
  }

  lemma PermutedMember(a: seq<Group>, b: seq<Group>, i: nat) returns (j: nat)
    requires Permuted(a, b) && i < |a|
    ensures j < |b| && b[j] == a[i]
  {
    assert a[i] in multiset(a);
    assert a[i] in multiset(b);
    j :| 0 <= j < |b| && b[j] == a[i];
  }

  lemma PermutedFine(p: Parser, a: seq<Group>, b: seq<Group>)
    requires Permuted(a, b) && AllFine(p, a)
    ensures AllFine(p, b)
  {
    forall i | 0 <= i < |b| ensures Fine(p, b[i]) {
      var j := PermutedMember(b, a, i);
    }
  }

  lemma PermutedValue(p: Parser, a: seq<Group>, b: seq<Group>, f: Field)
    requires Permuted(a, b) && AllFine(p, a) && AllFine(p, b) && Consistent(p, a)
    ensures LastValue(p, a, f) == LastValue(p, b, f)
  {
    LastValueIsWritten(p, a, f);
    LastValueIsWritten(p, b, f);
    if LastValue(p, a, f).Some? {
      var i :| 0 <= i < |a| && FieldIn(p, a[i]) == f && ValueIn(p, a[i]) == LastValue(p, a, f).value;
      var j := PermutedMember(a, b, i);
    }
    if LastValue(p, b, f).Some? {
      var j :| 0 <= j < |b| && FieldIn(p, b[j]) == f && ValueIn(p, b[j]) == LastValue(p, b, f).value;
      var i := PermutedMember(b, a, j);
    }
  }

  lemma PermutedConfig(p: Parser, c: Config, a: seq<Group>, b: seq<Group>)
    requires Permuted(a, b) && AllFine(p, a) && AllFine(p, b) && Consistent(p, a)
    ensures Stored(p, c, a) == Stored(p, c, b)
  {
    forall f ensures Get(Stored(p, c, a), f) == Get(Stored(p, c, b), f) {
      StoredField(p, c, a, f);
      StoredField(p, c, b, f);
      PermutedValue(p, a, b, f);
    }
    SameFieldsSameConfig(Stored(p, c, a), Stored(p, c, b));
  }

  const CLI := Parser(Registered, ParseBool)

  /** For arguments made of self-contained groups in which no field is given two different values, every
      permutation is parsed to the same configuration, and accepted or rejected with the same
      complaint. */
  lemma FlagOrderDoesNotMatter(a: seq<Group>, b: seq<Group>, exists_: string -> bool)
    requires Permuted(a, b) && AllFine(CLI, a) && Consistent(CLI, a)
    ensures ParseFlags(AllTokens(a), exists_) == ParseFlags(AllTokens(b), exists_)
    ensures ParseFlags(AllTokens(a), exists_) == Checked(Stopped(Stored(CLI, DEFAULTS, a), []), exists_)
  {
    PermutedFine(CLI, a, b);
    ParseGroups(CLI, DEFAULTS, a);
    ParseGroups(CLI, DEFAULTS, b);
    PermutedConfig(CLI, DEFAULTS, a, b);
  }

  /** What the groups are parsed to. */
  function ParsedFrom(groups: seq<Group>): Parsed {
    Parse(Registered, ParseBool, DEFAULTS, AllTokens(groups))
  }

  lemma {:induction false} LastValueAt(p: Parser, groups: seq<Group>, i: nat)
    requires AllFine(p, groups) && i < |groups|
    requires forall j | i < j < |groups| :: FieldIn(p, groups[j]) != FieldIn(p, groups[i])
    ensures LastValue(p, groups, FieldIn(p, groups[i])) == Some(ValueIn(p, groups[i]))
  {
    if i == 0 {
      LastValueIsWritten(p, groups[1..], FieldIn(p, groups[0]));
    } else {
      LastValueAt(p, groups[1..], i - 1);
    }
  }

  /** Of the groups that write a field the last one wins, whatever the others say. */
  lemma LaterGroupWins(groups: seq<Group>, i: nat)
    requires AllFine(CLI, groups) && i < |groups|
    requires forall j | i < j < |groups| :: FieldIn(CLI, groups[j]) != FieldIn(CLI, groups[i])
    ensures ParsedFrom(groups).Stopped? && ParsedFrom(groups).rest == []
    ensures Get(ParsedFrom(groups).config, FieldIn(CLI, groups[i])) == ValueIn(CLI, groups[i])
  {
    ParseGroups(CLI, DEFAULTS, groups);
    StoredField(CLI, DEFAULTS, groups, FieldIn(CLI, groups[i]));
    LastValueAt(CLI, groups, i);
  }

  /** Group i moved behind all the others. */
  function MovedLast(a: seq<Group>, i: nat): seq<Group>
    requires i < |a|
  {
    a[..i] + a[i + 1..] + [a[i]]
  }

  lemma MovedLastPermutes(a: seq<Group>, i: nat)
    requires i < |a|
    ensures Permuted(a, MovedLast(a, i))
  {
    assert a == a[..i] + [a[i]] + a[i + 1..];
  }

  lemma MovedLastWins(a: seq<Group>, i: nat)
    requires AllFine(CLI, a) && i < |a|
    ensures Permuted(a, MovedLast(a, i)) && ParsedFrom(MovedLast(a, i)).Stopped?
    ensures Get(ParsedFrom(MovedLast(a, i)).config, FieldIn(CLI, a[i])) == ValueIn(CLI, a[i])
  {
    MovedLastPermutes(a, i);
    PermutedFine(CLI, a, MovedLast(a, i));
    LaterGroupWins(MovedLast(a, i), |a| - 1);
  }

  /** Self-contained groups are parsed to the same configuration in every order if and only if no field is
      given two different values. */
  lemma OrderDoesNotMatterExactly(a: seq<Group>)
    requires AllFine(CLI, a)
    ensures Consistent(CLI, a) <==> forall b | Permuted(a, b) :: ParsedFrom(b) == ParsedFrom(a)
  {
    if Consistent(CLI, a) {
      forall b | Permuted(a, b) ensures ParsedFrom(b) == ParsedFrom(a) {
        PermutedFine(CLI, a, b);
        ParseGroups(CLI, DEFAULTS, a);
        ParseGroups(CLI, DEFAULTS, b);
        PermutedConfig(CLI, DEFAULTS, a, b);
      }
    } else {
      var i, j :| 0 <= i < |a| && 0 <= j < |a| && FieldIn(CLI, a[i]) == FieldIn(CLI, a[j])
                  && ValueIn(CLI, a[i]) != ValueIn(CLI, a[j]);
      MovedLastWins(a, i);
      MovedLastWins(a, j);
      assert ParsedFrom(MovedLast(a, i)) != ParsedFrom(MovedLast(a, j));
    }
  }

  /** Every name the program registers is one a group can be written with. */
  lemma RegisteredNamesAreRegistrable(name: string)
    requires Registered(name).Some?
    ensures Registrable(name)
  {
  }
}
