/** Small shared vocabulary: absent values, failed calls, powers of two and logarithms. */
module Prelude {

  /** A value that may be missing: a nil pointer, an absent map key, a JavaScript `undefined`. */
  datatype Option<+T> = None | Some(value: T)

  /** A call that may return an error or throw; the text of the error is not modelled. */
  datatype Result<+T> = Ok(value: T) | Err {
    predicate IsFailure() {
      Err?
    }

    function PropagateFailure<U>(): Result<U>
      requires Err?
    {
      Err
    }

    function Extract(): T
      requires Ok?
    {
      value
    }
  }

  lemma {:induction false} SliceJoins<T>(xs: seq<T>, a: nat, b: nat, c: nat)
    requires a <= b <= c <= |xs|
    ensures xs[a..b] + xs[b..c] == xs[a..c]
  {
  }

  lemma {:induction false} SliceSnoc<T>(xs: seq<T>, a: nat, b: nat)
    requires a <= b < |xs|
    ensures xs[a..b + 1] == xs[a..b] + [xs[b]]
    ensures a == b ==> xs[a..b] == []
  {
  }

  /** Taking the first element from a concatenation. */
  lemma {:induction false} ConcatTail<T>(a: seq<T>, b: seq<T>)
    requires a != []
    ensures a + b != [] && (a + b)[0] == a[0] && (a + b)[1..] == a[1..] + b
  {
  }

  lemma {:induction false} SliceOfSlice<T>(xs: seq<T>, a: nat, b: nat, k: nat)
    requires a <= b <= |xs| && k <= b - a
    ensures xs[a..b][k..] == xs[a + k..b]
  {
  }

  lemma {:induction false} MultisetWithout<T>(xs: seq<T>, i: nat)
    requires i < |xs|
    ensures multiset(xs) == multiset(xs[..i] + xs[i + 1..]) + multiset{xs[i]}
  {
    assert xs == xs[..i] + [xs[i]] + xs[i + 1..];
  }

  lemma {:induction false} SplitsAfter<T>(xs: seq<T>, a: nat, n: nat)
    requires a + n <= |xs|
    ensures xs[a..][..n] == xs[a..a + n] && xs[a..][n..] == xs[a + n..]
  {
  }

  lemma {:induction false} ConcatIsAssociative<T>(a: seq<T>, b: seq<T>, c: seq<T>)
    ensures (a + b) + c == a + (b + c)
  {
  }

  /** Converting a list element by element, up to the first failure. */
  function TryMap<A, B>(f: A -> Result<B>, xs: seq<A>): (r: Result<seq<B>>)
    ensures r.Ok? ==> |r.value| == |xs| && forall i :: 0 <= i < |xs| ==> f(xs[i]) == Ok(r.value[i])
    ensures r.Err? ==> exists i :: 0 <= i < |xs| && f(xs[i]).Err?
  {
    if xs == [] then Ok([])
    else
      var first := f(xs[0]);
      if first.Err? then Err
      else
        var rest := TryMap(f, xs[1..]);
        if rest.Err? then
          var i :| 0 <= i < |xs[1..]| && f(xs[1..][i]).Err?;
          assert f(xs[i + 1]).Err?;
          Err
        else Ok([first.value] + rest.value)
  }

  /** The loop that fills a result slice index by index and returns early on an error. */
  method MapEach<A, B>(f: A -> Result<B>, xs: seq<A>) returns (r: Result<seq<B>>)
    ensures r == TryMap(f, xs)
  {
    var slots: seq<B> := [];
    for i := 0 to |xs|
      invariant |slots| == i
      invariant forall j :: 0 <= j < i ==> f(xs[j]) == Ok(slots[j])
    {
      var converted := f(xs[i]);
      if converted.Err? {
        assert TryMap(f, xs).Err?;
        return Err;
      }
      slots := slots + [converted.value];
    }
    r := Ok(slots);
    assert forall j :: 0 <= j < |xs| ==> f(xs[j]).Ok?;
    assert TryMap(f, xs).Ok? && slots == TryMap(f, xs).value;
  }

  function Pow2(k: nat): (p: nat)
    ensures p >= 1
  {
    if k == 0 then 1 else 2 * Pow2(k - 1)
  }

  lemma {:induction false} HalfOfPow2(k: nat)
    requires k >= 1
    ensures Pow2(k) % 2 == 0 && Pow2(k) / 2 == Pow2(k - 1)
  {
  }

  ghost predicate IsPow2(n: nat) {
    exists k: nat :: n == Pow2(k)
  }

  /** The exponent of the largest power of two that is at most n. */
  function FloorLog2(n: nat): (k: nat)
    requires n >= 1
    ensures Pow2(k) <= n < Pow2(k + 1)
  {
    if n == 1 then 0 else 1 + FloorLog2(n / 2)
  }

  /** The exponent of the smallest power of two that is at least n. */
  function CeilLog2(n: nat): (k: nat)
    requires n >= 1
    ensures n <= Pow2(k)
    ensures k >= 1 ==> Pow2(k - 1) < n
  {
    if n == 1 then 0 else 1 + CeilLog2((n + 1) / 2)
  }

  lemma {:induction false} OddPow2IsOne(n: nat)
    requires n % 2 == 1
    ensures IsPow2(n) <==> n == 1
  {
    assert Pow2(0) == 1;
    if IsPow2(n) {
      var k: nat :| n == Pow2(k);
      if k > 0 { HalfOfPow2(k); }
    }
  }

  /** Both logarithms of a power of two are its exponent. */
  lemma {:induction false} LogsOfPow2(k: nat)
    ensures FloorLog2(Pow2(k)) == k == CeilLog2(Pow2(k))
  {
    if k == 0 {
    } else {
      LogsOfPow2(k - 1);
      HalfOfPow2(k);
      assert (Pow2(k) + 1) / 2 == Pow2(k - 1);
    }
  }

  /** The two logarithms agree on the powers of two and nowhere else. */
  lemma {:induction false} LogsAgreeOnlyOnPowers(n: nat)
    requires n >= 1
    ensures FloorLog2(n) == CeilLog2(n) <==> IsPow2(n)
  {
    if FloorLog2(n) == CeilLog2(n) {
      assert n == Pow2(FloorLog2(n));
    }
    if IsPow2(n) {
      var k: nat :| n == Pow2(k);
      LogsOfPow2(k);
    }
  }
}
