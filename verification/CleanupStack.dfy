/** The LIFO stack of release callbacks of cmd/void-initfs/cleanup.go, and the machine they act on. */
module CleanupStack {
  import opened HostState

  function Reversed<T>(s: seq<T>): (r: seq<T>)
    ensures |r| == |s|
    ensures forall i | 0 <= i < |s| :: r[i] == s[|s| - 1 - i]
  {
    if s == [] then [] else [s[|s| - 1]] + Reversed(s[..|s| - 1])
  }

  /** The build host. `fails(n)` says whether the n-th command of the run fails. */
  class Machine {
    const fails: nat -> bool
    var host: Host
    var clock: nat
    ghost var released: seq<Release>  // every release run so far, in order
    ghost var unsafe: nat             // how many of them ran at an unsafe moment
    ghost var failed: bool            // a command has failed, and no other may be run

    /** A command that changes nothing modelled here. A failing one ends the run. */
    method Command() returns (ok: bool)
      requires !failed
      modifies `clock, `failed
      ensures ok == !fails(old(clock)) && clock == old(clock) + 1 && failed == !ok
    {
      ok := !fails(clock);
      clock := clock + 1;
      failed := !ok;
    }

    method Release(r: Release)
      modifies `host, `released, `unsafe
      ensures host == Released(old(host), r)
      ensures released == old(released) + [r]
      ensures unsafe == old(unsafe) + if SafeNow(old(host), r) then 0 else 1
    {
      if !SafeNow(host, r) { unsafe := unsafe + 1; }
      released := released + [r];
      host := Released(host, r);
    }
  }

  class Stack {
    var fns: seq<Release>

    constructor ()
      ensures fns == []
    {
      fns := [];
    }

    method Push(fn: Release)
      modifies this
      ensures fns == old(fns) + [fn]
    {
      fns := fns + [fn];
    }

    /** Runs every callback once, last pushed first, and leaves an empty stack: a second call does
        nothing. */
    method Unwind(m: Machine)
      modifies this, m`host, m`released, m`unsafe
      ensures fns == []
      ensures m.host == Unwound(old(m.host), old(fns))
      ensures m.released == old(m.released) + Reversed(old(fns))
      ensures SafeUnwind(old(m.host), old(fns)) ==> m.unsafe == old(m.unsafe)
    {
      var i := |fns| - 1;
      assert fns[..i + 1] == fns;
      while i >= 0
        invariant -1 <= i < |fns| && fns == old(fns)
        invariant Unwound(m.host, fns[..i + 1]) == Unwound(old(m.host), old(fns))
        invariant m.released + Reversed(fns[..i + 1]) == old(m.released) + Reversed(old(fns))
        invariant SafeUnwind(old(m.host), old(fns)) ==>
                    SafeUnwind(m.host, fns[..i + 1]) && m.unsafe == old(m.unsafe)
      {
        assert fns[..i + 1][..i] == fns[..i];
        m.Release(fns[i]);
        i := i - 1;
      }
      fns := [];
    }
  }
}
