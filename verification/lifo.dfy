/**
 * The abstract stack: a sequence of values, top first. The stack operations
 * of the handle are specified by these steps.
 */
module Lifo {
  import opened Wrappers

  /** Push puts the value on top. */
  function Push<T>(s: seq<T>, v: T): seq<T>
  {
    [v] + s
  }

  /** Pop takes the top value off, or reports an empty stack and changes nothing. */
  function Pop<T>(s: seq<T>): (Option<T>, seq<T>)
  {
    if s == [] then (None, s) else (Some(s[0]), s[1..])
  }

  /** Push the values of `xs` one after another. */
  function PushAll<T>(s: seq<T>, xs: seq<T>): seq<T>
    decreases |xs|
  {
    if xs == [] then s else PushAll(Push(s, xs[0]), xs[1..])
  }

  /** Pop `n` times: the results in order, and the stack left over. */
  function PopN<T>(s: seq<T>, n: nat): (r: (seq<Option<T>>, seq<T>))
    ensures |r.0| == n
  {
    if n == 0 then ([], s)
    else
      var (r, rest) := Pop(s);
      var (rs, left) := PopN(rest, n - 1);
      ([r] + rs, left)
  }

  /** After pushing `xs`, the stack holds `xs` last-first on top of what was there. */
  lemma {:induction false} PushAllStacks<T>(s: seq<T>, xs: seq<T>)
    ensures |PushAll(s, xs)| == |xs| + |s|
    ensures forall k :: 0 <= k < |xs| ==> PushAll(s, xs)[k] == xs[|xs| - 1 - k]
    ensures PushAll(s, xs)[|xs|..] == s
    decreases |xs|
  {
    if xs != [] {
      PushAllStacks(Push(s, xs[0]), xs[1..]);
      var r := PushAll(s, xs);
      forall k | 0 <= k < |xs| ensures r[k] == xs[|xs| - 1 - k] {
        if k < |xs| - 1 {
          assert xs[1..][|xs| - 2 - k] == xs[|xs| - 1 - k];
        } else {
          assert r[k] == Push(s, xs[0])[0];
        }
      }
    }
  }

  /** Popping `n` times takes the top `n` values, top first, while they last; then empty results. */
  lemma {:induction false} PopNTakes<T>(s: seq<T>, n: nat)
    ensures forall k :: 0 <= k < n ==> PopN(s, n).0[k] == if k < |s| then Some(s[k]) else None
    ensures PopN(s, n).1 == if n <= |s| then s[n..] else []
  {
    if n > 0 {
      var rest := Pop(s).1;
      PopNTakes(rest, n - 1);
      if s != [] {
        assert forall k :: 0 < k < n && k < |s| ==> rest[k - 1] == s[k];
        if n <= |s| { assert rest[n - 1..] == s[n..]; }
      }
    }
  }

  /**
   * Strict LIFO: pushing `xs` and popping as many times returns `xs` in
   * reverse order and restores the stack; one more pop on a stack that was
   * empty reports empty.
   */
  lemma LastInFirstOut<T>(s: seq<T>, xs: seq<T>)
    ensures PopN(PushAll(s, xs), |xs|).1 == s
    ensures forall k :: 0 <= k < |xs| ==> PopN(PushAll(s, xs), |xs|).0[k] == Some(xs[|xs| - 1 - k])
    ensures s == [] ==> PopN(PushAll(s, xs), |xs| + 1).0[|xs|] == None
  {
    PushAllStacks(s, xs);
    PopNTakes(PushAll(s, xs), |xs|);
    PopNTakes(PushAll(s, xs), |xs| + 1);
  }
}
