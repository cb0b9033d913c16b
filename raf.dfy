/**
 * The frame loop of src/core/raf.ts: a registry of per-frame callbacks without
 * duplicates, a pause flag that requests or cancels the next animation frame when it
 * changes, and the frame handler that passes every callback the clamped time step.
 *
 * The browser's `requestAnimationFrame` / `cancelAnimationFrame` pair is reduced to
 * the flag `frameScheduled`, and the callbacks are known only by their identity.  The
 * calls the frame handler makes are returned as a list instead of being executed.
 */
module Raf {
  import opened Common

  /** A callback, known by its identity: `indexOf` compares functions by reference. */
  type Callback = nat

  /** The largest time step, in milliseconds, passed on to the callbacks. */
  const MaxDelta: real := 250.0

  // ---------------------------------------------------------------------------
  // The callback list
  // ---------------------------------------------------------------------------

  /** `s.indexOf(c)`: the first position of `c` in `s`, or -1 when `c` is absent. */
  function IndexOf(s: seq<Callback>, c: Callback): (i: int)
    decreases |s|
    ensures -1 <= i < |s|
    ensures i == -1 <==> c !in s
    ensures i >= 0 ==> s[i] == c && c !in s[..i]
  {
    if s == [] then -1
    else if s[0] == c then 0
    else
      var k := IndexOf(s[1..], c);
      if k == -1 then -1 else k + 1
  }

  predicate NoDuplicates(s: seq<Callback>) {
    forall i, j :: 0 <= i < j < |s| ==> s[i] != s[j]
  }

  /** The list after `add(c)`: `c` is pushed when `indexOf` does not find it. */
  function Added(s: seq<Callback>, c: Callback): seq<Callback> {
    if IndexOf(s, c) == -1 then s + [c] else s
  }

  /** The list after `remove(c)`: the element `indexOf` finds is spliced out. */
  function Removed(s: seq<Callback>, c: Callback): seq<Callback> {
    var i := IndexOf(s, c);
    if i == -1 then s else s[..i] + s[i + 1..]
  }

  /** `s` without any occurrence of `c`, the rest in order. */
  function Without(s: seq<Callback>, c: Callback): seq<Callback>
    decreases |s|
  {
    if s == [] then [] else (if s[0] == c then [] else [s[0]]) + Without(s[1..], c)
  }

  /** Adding keeps the list free of duplicates, puts `c` in it and adds nothing else; adding again changes nothing. */
  lemma AddedProps(s: seq<Callback>, c: Callback)
    requires NoDuplicates(s)
    ensures NoDuplicates(Added(s, c))
    ensures forall x :: x in Added(s, c) <==> x in s || x == c
    ensures c in s ==> Added(s, c) == s
    ensures Added(Added(s, c), c) == Added(s, c)
  {
    var a := Added(s, c);
    assert c in a;
    if c !in s {
      assert a == s + [c];
      forall i, j | 0 <= i < j < |a|
        ensures a[i] != a[j]
      {
        if j == |s| {
          assert a[i] == s[i] && s[i] in s;
        }
      }
    }
  }

  /** Removing keeps the list free of duplicates and takes out `c` and nothing else. */
  lemma RemovedProps(s: seq<Callback>, c: Callback)
    requires NoDuplicates(s)
    ensures NoDuplicates(Removed(s, c))
    ensures forall x :: x in Removed(s, c) <==> x in s && x != c
    ensures c !in s ==> Removed(s, c) == s
  {
    var i := IndexOf(s, c);
    if i != -1 {
      SpliceAt(s, i);
      SpliceNoDuplicates(s, i);
      SpliceMembers(s, i);
    }
  }

  lemma SpliceNoDuplicates(s: seq<Callback>, i: int)
    requires NoDuplicates(s) && 0 <= i < |s|
    ensures NoDuplicates(s[..i] + s[i + 1..])
  {
    var r := s[..i] + s[i + 1..];
    SpliceAt(s, i);
    forall a, b | 0 <= a < b < |r|
      ensures r[a] != r[b]
    {
      var a', b' := if a < i then a else a + 1, if b < i then b else b + 1;
      assert r[a] == s[a'] && r[b] == s[b'] && a' < b';
    }
  }

  lemma SpliceMembers(s: seq<Callback>, i: int)
    requires NoDuplicates(s) && 0 <= i < |s|
    ensures forall x :: x in s[..i] + s[i + 1..] <==> x in s && x != s[i]
  {
    var r := s[..i] + s[i + 1..];
    SpliceAt(s, i);
    forall x
      ensures x in r <==> x in s && x != s[i]
    {
      if x in r {
        var k :| 0 <= k < |r| && r[k] == x;
        assert x == s[if k < i then k else k + 1];
      }
      if x in s && x != s[i] {
        var k :| 0 <= k < |s| && s[k] == x;
        assert x == r[if k < i then k else k - 1];
      }
    }
  }

  /** Splicing out position `i` shifts the elements after it down by one. */
  lemma SpliceAt(s: seq<Callback>, i: int)
    requires 0 <= i < |s|
    ensures |s[..i] + s[i + 1..]| == |s| - 1
    ensures forall k :: 0 <= k < |s| - 1 ==> (s[..i] + s[i + 1..])[k] == (if k < i then s[k] else s[k + 1])
  {
  }

  /** On a list without duplicates, `remove` keeps the order of the others: it is the filter that drops `c`. */
  lemma {:induction false} RemovedIsWithout(s: seq<Callback>, c: Callback)
    requires NoDuplicates(s)
    decreases |s|
    ensures Removed(s, c) == Without(s, c)
  {
    if s != [] {
      var t := s[1..];
      assert NoDuplicates(t) by {
        forall i, j | 0 <= i < j < |t| ensures t[i] != t[j] {
          assert t[i] == s[i + 1] && t[j] == s[j + 1];
        }
      }
      RemovedIsWithout(t, c);
      if s[0] == c {
        assert c !in t by {
          forall k | 0 <= k < |t| ensures t[k] != c {
            assert t[k] == s[k + 1];
          }
        }
        WithoutAbsent(t, c);
        assert Removed(s, c) == t;
      } else {
        RemovedCons(s, c);
      }
    }
  }

  /** Past a first element other than `c`, removing works on the rest. */
  lemma RemovedCons(s: seq<Callback>, c: Callback)
    requires s != [] && s[0] != c
    ensures Removed(s, c) == [s[0]] + Removed(s[1..], c)
  {
    var t := s[1..];
    var k := IndexOf(t, c);
    if k == -1 {
      assert Removed(s, c) == s && Removed(t, c) == t;
      assert s == [s[0]] + t;
    } else {
      assert IndexOf(s, c) == k + 1;
      assert Removed(s, c) == s[..k + 1] + s[k + 2..];
      assert Removed(t, c) == t[..k] + t[k + 1..];
      assert s[..k + 1] == [s[0]] + t[..k];
      assert s[k + 2..] == t[k + 1..];
    }
  }

  lemma {:induction false} WithoutAbsent(s: seq<Callback>, c: Callback)
    requires c !in s
    decreases |s|
    ensures Without(s, c) == s
  {
    if s != [] {
      assert s[0] != c;
      assert c !in s[1..] by {
        forall k | 0 <= k < |s| - 1 ensures s[1..][k] != c {
          assert s[1..][k] == s[k + 1];
        }
      }
      WithoutAbsent(s[1..], c);
      assert s == [s[0]] + s[1..];
    }
  }

  /** Removing a callback just added to a list that lacked it gives the list back. */
  lemma RemoveUndoesAdd(s: seq<Callback>, c: Callback)
    requires c !in s
    ensures Removed(Added(s, c), c) == s
  {
    var a := s + [c];
    assert Added(s, c) == a;
    assert IndexOf(a, c) == |s| by {
      assert a[|s|] == c && a[..|s|] == s;
    }
    assert a[..|s|] == s;
  }

  /** Reversing keeps the elements and the absence of duplicates. */
  lemma ReversedNoDuplicates(s: seq<Callback>)
    requires NoDuplicates(s)
    ensures NoDuplicates(Reversed(s))
    ensures forall x :: x in Reversed(s) <==> x in s
  {
    var r := Reversed(s);
    forall x
      ensures x in r <==> x in s
    {
      if x in r {
        var k :| 0 <= k < |r| && r[k] == x;
        assert s[|s| - 1 - k] == x;
      }
      if x in s {
        var k :| 0 <= k < |s| && s[k] == x;
        assert r[|s| - 1 - k] == x;
      }
    }
  }

  // ---------------------------------------------------------------------------
  // The time step
  // ---------------------------------------------------------------------------

  /** `time - (lastTime || 0.0)`, capped at 250; `lastTime || 0.0` is `lastTime` for a number. */
  function Delta(lastTime: real, time: real): real {
    var delta := time - lastTime;
    if delta > MaxDelta then MaxDelta else delta
  }

  /** The step is the elapsed time unless that exceeds 250 ms; a callback gets at most 0.25 s. */
  lemma DeltaClamp(lastTime: real, time: real)
    ensures Delta(lastTime, time) <= MaxDelta
    ensures time - lastTime <= MaxDelta ==> Delta(lastTime, time) == time - lastTime
    ensures time - lastTime > MaxDelta ==> Delta(lastTime, time) == MaxDelta
    ensures Delta(lastTime, time) * 0.001 <= 0.25
  {
  }

  /** One call `callback(delta * 0.001, time)` made by the frame handler. */
  datatype Call = Call(callback: Callback, delta: real, time: real)

  // ---------------------------------------------------------------------------
  // The static class
  // ---------------------------------------------------------------------------

  class Raf {
    var callbacks: seq<Callback>
    var paused: bool
    var lastTime: real
    /** Whether an animation frame is requested: the handle `raf` is live. */
    var frameScheduled: bool

    /** No callback twice, and a frame is pending exactly while the loop is not paused. */
    predicate Valid()
      reads this
    {
      NoDuplicates(callbacks) && frameScheduled == !paused
    }

    /** The static initialisers: paused, `lastTime = 0.0`, no callbacks, no frame. */
    constructor ()
      ensures Valid() && callbacks == [] && paused && lastTime == 0.0 && !frameScheduled
    {
      callbacks := [];
      paused := true;
      lastTime := 0.0;
      frameScheduled := false;
    }

    /** `add(callback)`. */
    method Add(callback: Callback)
      requires Valid()
      modifies this
      ensures Valid() && callbacks == Added(old(callbacks), callback)
      ensures callback in callbacks
      ensures paused == old(paused) && lastTime == old(lastTime) && frameScheduled == old(frameScheduled)
    {
      AddedProps(callbacks, callback);
      var index := IndexOf(callbacks, callback);
      if index == -1 {
        callbacks := callbacks + [callback];
      }
    }

    /** `remove(callback)`. */
    method Remove(callback: Callback)
      requires Valid()
      modifies this
      ensures Valid() && callbacks == Removed(old(callbacks), callback)
      ensures callback !in callbacks
      ensures paused == old(paused) && lastTime == old(lastTime) && frameScheduled == old(frameScheduled)
    {
      RemovedProps(callbacks, callback);
      var index := IndexOf(callbacks, callback);
      if index != -1 {
        callbacks := callbacks[..index] + callbacks[index + 1..];
      }
    }

    /** `dispose()`: cancels the frame, empties the list and pauses. */
    method Dispose()
      modifies this
      ensures Valid() && callbacks == [] && paused && !frameScheduled && lastTime == old(lastTime)
    {
      frameScheduled := false;
      callbacks := [];
      paused := true;
    }

    /** The `pause` setter: on a change, pausing cancels the frame and unpausing requests one. */
    method SetPause(p: bool)
      requires Valid()
      modifies this
      ensures Valid() && paused == p && frameScheduled == !p
      ensures old(paused) == p ==> frameScheduled == old(frameScheduled)
      ensures callbacks == old(callbacks) && lastTime == old(lastTime)
    {
      if paused != p {
        paused := p;
        if p {
          frameScheduled := false;
        } else {
          frameScheduled := true;
        }
      }
    }

    /**
     * `update(time)`, run by the browser for the requested frame: requests the next
     * frame, calls the callbacks from the last registered to the first with the clamped
     * step in seconds, and records `time`.
     */
    method Update(time: real) returns (calls: seq<Call>)
      requires Valid() && frameScheduled
      modifies this
      ensures Valid() && frameScheduled && lastTime == time
      ensures callbacks == old(callbacks) && paused == old(paused)
      ensures |calls| == |callbacks|
      ensures forall k :: 0 <= k < |calls| ==>
        calls[k] == Call(Reversed(callbacks)[k], Delta(old(lastTime), time) * 0.001, time)
    {
      frameScheduled := true;
      var delta := time - lastTime;
      if delta > MaxDelta {
        delta := MaxDelta;
      }
      calls := [];
      var c := |callbacks|;
      while c != 0
        invariant 0 <= c <= |callbacks| && |calls| == |callbacks| - c
        invariant forall k :: 0 <= k < |calls| ==> calls[k] == Call(callbacks[|callbacks| - 1 - k], delta * 0.001, time)
      {
        c := c - 1;
        calls := calls + [Call(callbacks[c], delta * 0.001, time)];
      }
      lastTime := time;
    }
  }
}
