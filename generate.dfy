/**
 * hpx::generate and hpx::generate_n under the sequenced policy: each
 * element of a range in turn is overwritten with the next value of a
 * stateful generator.
 */
module Generate {

  /**
   * A generator function object: its k-th invocation yields outputs(k);
   * `calls` counts the invocations so far.
   */
  class Generator<T> {
    const outputs: nat -> T
    var calls: nat

    constructor (outputs: nat -> T)
      ensures this.outputs == outputs && calls == 0
    {
      this.outputs := outputs;
      calls := 0;
    }

    /** f() */
    method Invoke() returns (v: T)
      modifies this
      ensures v == outputs(old(calls)) && calls == old(calls) + 1
    {
      v := outputs(calls);
      calls := calls + 1;
    }
  }

  /** The next `n` outputs of a generator that has been invoked `start` times. */
  function Generated<T>(outputs: nat -> T, start: nat, n: nat): (r: seq<T>)
    ensures |r| == n
    ensures forall i :: 0 <= i < n ==> r[i] == outputs(start + i)
    decreases n
  {
    if n == 0 then [] else [outputs(start)] + Generated(outputs, start + 1, n - 1)
  }

  /** Generating a range in two pieces gives the same values as generating it at once. */
  lemma {:induction false} GeneratedSplit<T>(outputs: nat -> T, start: nat, m: nat, n: nat)
    ensures Generated(outputs, start, m + n) == Generated(outputs, start, m) + Generated(outputs, start + m, n)
  {
    var whole := Generated(outputs, start, m + n);
    var parts := Generated(outputs, start, m) + Generated(outputs, start + m, n);
    assert |whole| == |parts|;
    forall i | 0 <= i < m + n
      ensures whole[i] == parts[i]
    {
      if i >= m {
        assert parts[i] == Generated(outputs, start + m, n)[i - m];
      }
    }
  }

  /**
   * generate(first, last, f): element first + i receives the i-th value
   * of f, f is invoked exactly last - first times, and last is returned.
   */
  method Generate<T>(a: array<T>, first: nat, last: nat, g: Generator<T>) returns (r: nat)
    requires first <= last <= a.Length
    modifies a, g
    ensures r == last
    ensures a[first..last] == Generated(g.outputs, old(g.calls), last - first)
    ensures a[..first] == old(a[..first]) && a[last..] == old(a[last..])
    ensures g.calls == old(g.calls) + (last - first)
  {
    var i := first;
    while i < last
      invariant first <= i <= last
      invariant g.calls == old(g.calls) + (i - first)
      invariant a[first..i] == Generated(g.outputs, old(g.calls), i - first)
      invariant a[..first] == old(a[..first]) && a[last..] == old(a[last..])
      invariant forall k :: i <= k < last ==> a[k] == old(a[k])
    {
      var v := g.Invoke();
      a[i] := v;
      GeneratedSplit(g.outputs, old(g.calls), i - first, 1);
      assert a[first..i + 1] == a[first..i] + [a[i]];
      i := i + 1;
    }
    r := last;
  }

  /**
   * generate_n(first, count, f): a negative count returns first and
   * touches nothing; otherwise [first, first + count) is generated as by
   * generate and first + count is returned.
   */
  method GenerateN<T>(a: array<T>, first: nat, count: int, g: Generator<T>) returns (r: nat)
    requires first <= a.Length && (count < 0 || first + count <= a.Length)
    modifies a, g
    ensures count < 0 ==> r == first && a[..] == old(a[..]) && g.calls == old(g.calls)
    ensures count >= 0 ==> r == first + count && g.calls == old(g.calls) + count
    ensures count >= 0 ==> a[first..first + count] == Generated(g.outputs, old(g.calls), count)
    ensures count >= 0 ==> a[..first] == old(a[..first]) && a[first + count..] == old(a[first + count..])
  {
    if count < 0 {
      return first;
    }
    r := Generate(a, first, first + count, g);
  }
}
