/** Doing the same thing to a value again and again, where an attempt may break off half-way. */
module Repeats {

  function Repeated<T>(f: T -> T, x: T, times: nat): T {
    if times == 0 then x else f(Repeated(f, x, times - 1))
  }

  lemma {:induction false} RepeatedMore<T>(f: T -> T, x: T, a: nat, b: nat)
    ensures Repeated(f, Repeated(f, x, a), b) == Repeated(f, x, a + b)
  {
    if b > 0 {
      RepeatedMore(f, x, a, b - 1);
    }
  }

  /** Complete up to number n of at most `times`, and then perhaps broken off in the next attempt. */
  predicate BrokenOff<T(==)>(f: T -> T, broken: (T, T) -> bool, before: T, after: T, n: nat, times: nat) {
    || after == Repeated(f, before, n)
    || (n < times && broken(Repeated(f, before, n), after))
  }

  /** On success done so many times; on failure at most so many times, the last perhaps broken off. */
  ghost predicate Stretch<T>(f: T -> T, broken: (T, T) -> bool, before: T, after: T, times: nat, ok: bool) {
    if ok then after == Repeated(f, before, times)
    else exists n: nat :: n <= times && BrokenOff(f, broken, before, after, n, times)
  }

  /** One stretch after another. */
  lemma StretchThen<T>(f: T -> T, broken: (T, T) -> bool, before: T, middle: T, after: T,
                       first: nat, second: nat, times: nat, ok: bool)
    requires Stretch(f, broken, before, middle, first, true) && Stretch(f, broken, middle, after, second, ok)
    requires if ok then times == first + second else first + second <= times
    ensures Stretch(f, broken, before, after, times, ok)
  {
    if ok {
      RepeatedMore(f, before, first, second);
    } else {
      var n: nat :| n <= second && BrokenOff(f, broken, middle, after, n, second);
      RepeatedMore(f, before, first, n);
      assert BrokenOff(f, broken, before, after, first + n, times);
    }
  }

  lemma StretchOfNone<T>(f: T -> T, broken: (T, T) -> bool, x: T, times: nat)
    ensures Stretch(f, broken, x, x, 0, true) && Stretch(f, broken, x, x, times, false)
  {
    assert BrokenOff(f, broken, x, x, 0, times);
  }

  lemma StretchOfOne<T>(f: T -> T, broken: (T, T) -> bool, before: T, after: T)
    ensures after == f(before) ==>
              Stretch(f, broken, before, after, 1, true) && Stretch(f, broken, before, after, 1, false)
    ensures broken(before, after) ==> Stretch(f, broken, before, after, 1, false)
  {
    assert Repeated(f, before, 0) == before && Repeated(f, before, 1) == f(before);
    assert broken(before, after) ==> BrokenOff(f, broken, before, after, 0, 1);
    assert after == f(before) ==> BrokenOff(f, broken, before, after, 1, 1);
  }

  lemma StretchFailsLater<T>(f: T -> T, broken: (T, T) -> bool, before: T, after: T, times: nat)
    requires Stretch(f, broken, before, after, times, true)
    ensures Stretch(f, broken, before, after, times, false)
  {
    assert BrokenOff(f, broken, before, after, times, times);
  }
}
