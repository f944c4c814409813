/** Strings as the Go code uses them: first occurrence (`strings.Index`), splitting and joining on a
    separator (`strings.Split`, `strings.Join`), and trimming of trailing blanks
    (`strings.TrimRight(s, "\n\t ")`). */
module Strings {

  import opened Options

  // ---------------------------------------------------------------- first occurrence

  predicate OccursAt(s: string, t: string, i: nat) {
    i + |t| <= |s| && s[i..i + |t|] == t
  }

  ghost predicate Contains(s: string, t: string) {
    exists i: nat :: OccursAt(s, t, i)
  }

  /** The first position at or after `from` where `t` occurs in `s`. */
  function IndexFrom(s: string, t: string, from: nat): (r: Option<nat>)
    ensures r.Some? ==> OccursAt(s, t, r.value) && from <= r.value
    ensures r.Some? ==> forall i: nat :: from <= i < r.value ==> !OccursAt(s, t, i)
    ensures r.None? ==> forall i: nat :: from <= i ==> !OccursAt(s, t, i)
    decreases |s| - from
  {
    if |s| < from + |t| then None
    else if OccursAt(s, t, from) then Some(from)
    else IndexFrom(s, t, from + 1)
  }

  /** `strings.Index`: the first position where `t` occurs in `s`, if any. */
  function IndexOf(s: string, t: string): (r: Option<nat>)
    ensures r.Some? <==> Contains(s, t)
    ensures r.Some? ==> OccursAt(s, t, r.value)
    ensures r.Some? ==> forall i: nat :: i < r.value ==> !OccursAt(s, t, i)
  {
    IndexFrom(s, t, 0)
  }

  /** An occurrence with nothing before it is what `IndexOf` finds. */
  lemma IndexIsFirst(s: string, t: string, i: nat)
    requires OccursAt(s, t, i)
    requires forall j: nat :: j < i ==> !OccursAt(s, t, j)
    ensures IndexOf(s, t) == Some(i)
  {
    assert Contains(s, t);
  }

  lemma ContainsGrows(a: string, b: string, t: string)
    requires Contains(a, t)
    ensures Contains(a + b, t)
  {
    var i: nat :| OccursAt(a, t, i);
    assert (a + b)[i..i + |t|] == a[i..i + |t|];
    assert OccursAt(a + b, t, i);
  }

  // ---------------------------------------------------------------- trimming

  predicate IsBlank(c: char) {
    c == '\n' || c == '\t' || c == ' '
  }

  /** Every character is one that trimming removes. */
  predicate AllBlank(s: string) {
    forall c | c in s :: IsBlank(c)
  }

  /** `strings.TrimRight(s, "\n\t ")`: the longest prefix that does not end in a blank. */
  function TrimRight(s: string): (r: string)
    ensures r <= s
    ensures r != "" ==> !IsBlank(r[|r| - 1])
    ensures AllBlank(s[|r|..])
  {
    if s != "" && IsBlank(s[|s| - 1]) then
      var r := TrimRight(s[..|s| - 1]);
      assert s[|r|..] == s[..|s| - 1][|r|..] + [s[|s| - 1]];
      r
    else s
  }

  lemma TrimSplits(s: string)
    ensures s == TrimRight(s) + s[|TrimRight(s)|..]
  {
  }

  /** The three facts about `TrimRight`'s result determine it. */
  lemma {:induction false} TrimIs(s: string, r: string)
    requires r <= s
    requires r != "" ==> !IsBlank(r[|r| - 1])
    requires AllBlank(s[|r|..])
    ensures TrimRight(s) == r
  {
    var t := TrimRight(s);
    BlankTail(s, |t|);
    BlankTail(s, |r|);
  }

  lemma BlankTail(s: string, from: nat)
    requires from <= |s| && AllBlank(s[from..])
    ensures forall k | from <= k < |s| :: IsBlank(s[k])
  {
    assert forall k | from <= k < |s| :: s[k] == s[from..][k - from];
  }

  lemma Assoc(a: string, b: string, c: string)
    ensures a + (b + c) == a + b + c
  {
  }

  lemma DropConcat(a: string, b: string, n: nat)
    requires n <= |b|
    ensures (a + b)[|a| + n..] == b[n..]
  {
  }

  lemma TailBlank(a: string, b: string, n: nat)
    requires n <= |a| && AllBlank(a[n..]) && AllBlank(b)
    ensures AllBlank((a + b)[n..])
  {
    assert (a + b)[n..] == a[n..] + b;
  }

  /** Trimming a concatenation trims the second part, and reaches into the first only when the second
      is blank throughout. */
  lemma TrimConcat(a: string, b: string)
    ensures TrimRight(a + b) == if TrimRight(b) == "" then TrimRight(a) else a + TrimRight(b)
  {
    var tb := TrimRight(b);
    if tb == "" {
      var ta := TrimRight(a);
      assert b[0..] == b;
      TailBlank(a, b, |ta|);
      TrimIs(a + b, ta);
    } else {
      DropConcat(a, b, |tb|);
      assert a + tb <= a + b;
      TrimIs(a + b, a + tb);
    }
  }

  lemma TrimContains(s: string, t: string)
    requires Contains(TrimRight(s), t)
    ensures Contains(s, t)
  {
    var r := TrimRight(s);
    assert r + s[|r|..] == s;
    ContainsGrows(r, s[|r|..], t);
  }

  lemma TrimBlank(b: string)
    requires AllBlank(b)
    ensures TrimRight(b) == ""
  {
    TrimIs(b, "");
  }

  /** Replacing a tail by its trimmed form plus blanks does not change the trimmed whole. */
  lemma TrimAbsorbs(a: string, b: string, blanks: string)
    requires AllBlank(blanks)
    ensures TrimRight(a + (TrimRight(b) + blanks)) == TrimRight(a + b)
  {
    Assoc(a, TrimRight(b), blanks);
    TrimBlank(blanks);
    TrimConcat(a + TrimRight(b), blanks);
    TrimConcat(a, b);
    TrimConcat(a, TrimRight(b));
    TrimIs(TrimRight(b), TrimRight(b));
    if TrimRight(b) == "" {
      assert a + TrimRight(b) == a;
    }
  }

  // ---------------------------------------------------------------- split and join

  /** `strings.Split(s, sep)` for a one-character separator. */
  function Split(s: string, sep: char): (r: seq<string>)
    ensures |r| >= 1
    ensures forall l | l in r :: sep !in l
  {
    if s == "" then [""]
    else
      var rest := Split(s[1..], sep);
      if s[0] == sep then [""] + rest else [[s[0]] + rest[0]] + rest[1..]
  }

  /** `strings.Join(lines, sep)` for a one-character separator. */
  function Join(lines: seq<string>, sep: char): string {
    if |lines| == 0 then ""
    else if |lines| == 1 then lines[0]
    else lines[0] + [sep] + Join(lines[1..], sep)
  }

  lemma {:induction false} JoinSplit(s: string, sep: char)
    ensures Join(Split(s, sep), sep) == s
  {
    if s != "" {
      var rest := Split(s[1..], sep);
      JoinSplit(s[1..], sep);
      if s[0] == sep {
        assert ([""] + rest)[1..] == rest;
      } else if |rest| > 1 {
        assert ([[s[0]] + rest[0]] + rest[1..])[1..] == rest[1..];
      }
    }
  }

  lemma {:induction false} SplitPlain(s: string, sep: char)
    requires sep !in s
    ensures Split(s, sep) == [s]
  {
    if s != "" {
      SplitPlain(s[1..], sep);
      assert [s[0]] + s[1..] == s;
    }
  }

  /** Splitting `a`, a separator and `b` splits the two parts on their own. */
  lemma {:induction false} SplitConcat(a: string, sep: char, b: string)
    ensures Split(a + [sep] + b, sep) == Split(a, sep) + Split(b, sep)
  {
    if a == "" {
      assert (a + [sep] + b)[1..] == b;
    } else {
      SplitConcat(a[1..], sep, b);
      assert (a + [sep] + b)[1..] == a[1..] + [sep] + b;
      SplitGrow(a, a + [sep] + b, sep, Split(b, sep));
    }
  }

  lemma ConsConcat(x: string, tail: seq<string>, more: seq<string>)
    ensures [x] + (tail + more) == [x] + tail + more
  {
  }

  lemma TailConcat(all: seq<string>, more: seq<string>)
    requires all != []
    ensures (all + more)[0] == all[0] && (all + more)[1..] == all[1..] + more
  {
  }

  /** Two texts with the same first character split alike if what follows does. */
  lemma SplitGrow(a: string, s: string, sep: char, more: seq<string>)
    requires a != "" && s != "" && a[0] == s[0]
    requires Split(s[1..], sep) == Split(a[1..], sep) + more
    ensures Split(s, sep) == Split(a, sep) + more
  {
    var ra := Split(a[1..], sep);
    if a[0] == sep {
      ConsConcat("", ra, more);
    } else {
      TailConcat(ra, more);
      ConsConcat([a[0]] + ra[0], ra[1..], more);
    }
  }

  lemma {:induction false} SplitJoin(lines: seq<string>, sep: char)
    requires |lines| >= 1
    requires forall l | l in lines :: sep !in l
    ensures Split(Join(lines, sep), sep) == lines
  {
    SplitPlain(lines[0], sep);
    if |lines| > 1 {
      SplitJoin(lines[1..], sep);
      SplitConcat(lines[0], sep, Join(lines[1..], sep));
      assert lines == [lines[0]] + lines[1..];
    }
  }

  lemma {:induction false} JoinConcat(a: seq<string>, b: seq<string>, sep: char)
    requires |a| >= 1 && |b| >= 1
    ensures Join(a + b, sep) == Join(a, sep) + [sep] + Join(b, sep)
  {
    if |a| == 1 {
      assert (a + b)[1..] == b;
    } else {
      assert (a + b)[1..] == a[1..] + b;
      JoinConcat(a[1..], b, sep);
    }
  }

  // ---------------------------------------------------------------- lines

  /** Every line followed by a newline. */
  function Unlines(lines: seq<string>): string {
    if lines == [] then "" else lines[0] + ['\n'] + Unlines(lines[1..])
  }

  lemma {:induction false} SplitUnlines(lines: seq<string>)
    requires forall i | 0 <= i < |lines| :: '\n' !in lines[i]
    ensures Split(Unlines(lines), '\n') == lines + [""]
  {
    if lines != [] {
      SplitUnlines(lines[1..]);
      SplitPlain(lines[0], '\n');
      SplitConcat(lines[0], '\n', Unlines(lines[1..]));
      assert lines == [lines[0]] + lines[1..];
    }
  }

  lemma {:induction false} UnlinesConcat(a: seq<string>, b: seq<string>)
    ensures Unlines(a + b) == Unlines(a) + Unlines(b)
  {
    if a == [] {
      assert a + b == b;
    } else {
      UnlinesConcat(a[1..], b);
      TailConcat(a, b);
      Assoc(a[0] + ['\n'], Unlines(a[1..]), Unlines(b));
    }
  }

  lemma UnlinesEnd(lines: seq<string>)
    requires lines != []
    ensures var u := Unlines(lines); u != "" && u[|u| - 1] == '\n'
  {
    var init, last := lines[..|lines| - 1], lines[|lines| - 1];
    UnlinesConcat(init, [last]);
    assert init + [last] == lines;
    assert Unlines([last]) == last + ['\n'] + "";
  }

  /** How many characters the lines take with their newlines. */
  function Size(lines: seq<string>): nat {
    if lines == [] then 0 else Size(lines[..|lines| - 1]) + |lines[|lines| - 1]| + 1
  }

  lemma {:induction false} SizeConcat(a: seq<string>, b: seq<string>)
    ensures Size(a + b) == Size(a) + Size(b)
  {
    if b == [] {
      assert a + b == a;
    } else {
      SizeConcat(a, b[..|b| - 1]);
      assert (a + b)[..|a + b| - 1] == a + b[..|b| - 1];
    }
  }

  lemma {:induction false} SizeOfUnlines(lines: seq<string>)
    ensures |Unlines(lines)| == Size(lines)
  {
    if lines != [] {
      SizeOfUnlines(lines[1..]);
      SizeConcat([lines[0]], lines[1..]);
      assert [lines[0]] + lines[1..] == lines;
      assert Size([lines[0]]) == |lines[0]| + 1;
    }
  }

  lemma {:induction false} SizeOfSplit(text: string)
    ensures Size(Split(text, '\n')) == |text| + 1
  {
    if text == "" {
      assert Size([""]) == 1;
    } else {
      var rest := Split(text[1..], '\n');
      SizeOfSplit(text[1..]);
      SizeConcat([rest[0]], rest[1..]);
      assert [rest[0]] + rest[1..] == rest;
      if text[0] == '\n' {
        SizeConcat([""], rest);
        assert Size([""]) == 1;
      } else {
        var first := [text[0]] + rest[0];
        SizeConcat([first], rest[1..]);
        assert Size([first]) == |first| + 1 && Size([rest[0]]) == |rest[0]| + 1;
      }
    }
  }
}
