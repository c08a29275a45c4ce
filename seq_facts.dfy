/** Facts about sequences and their multisets shared by the reader and the predictor. */
module SeqFacts {

  /** The first position of `x` in `t`. */
  function IndexOf<T(==)>(t: seq<T>, x: T): (k: nat)
    requires x in t
    ensures k < |t| && t[k] == x
    ensures forall j :: 0 <= j < k ==> t[j] != x
  {
    if t[0] == x then 0 else 1 + IndexOf(t[1..], x)
  }

  lemma MultisetRemove<T>(t: seq<T>, k: nat)
    requires k < |t|
    ensures multiset(t[..k] + t[k + 1..]) == multiset(t) - multiset{t[k]}
  {
    assert t == t[..k] + [t[k]] + t[k + 1..];
    assert multiset(t) == multiset(t[..k]) + multiset{t[k]} + multiset(t[k + 1..]);
  }

  /** Matching the first term of `s` with a term of its permutation `t`. */
  lemma MatchFirst<T>(s: seq<T>, t: seq<T>) returns (k: nat)
    requires s != [] && multiset(s) == multiset(t)
    ensures k < |t| && t[k] == s[0]
    ensures multiset(s[1..]) == multiset(t[..k] + t[k + 1..])
  {
    var x := s[0];
    assert x in multiset(s);
    k := IndexOf(t, x);
    MultisetRemove(t, k);
    assert s == [x] + s[1..];
    assert multiset(s) == multiset{x} + multiset(s[1..]);
    assert multiset(s[1..]) == multiset(s) - multiset{x};
  }

  /** `f` applied to every term, in order. */
  function Apply<A, B>(f: A -> B, s: seq<A>): (r: seq<B>)
    ensures |r| == |s| && forall k :: 0 <= k < |s| ==> r[k] == f(s[k])
  {
    seq(|s|, k requires 0 <= k < |s| => f(s[k]))
  }

  lemma ApplyConcat<A, B>(f: A -> B, s: seq<A>, t: seq<A>)
    ensures Apply(f, s + t) == Apply(f, s) + Apply(f, t)
  {
  }

  /** Applying a function to a permutation gives a permutation of the images. */
  lemma {:induction false} ApplyPermutation<A, B>(f: A -> B, s: seq<A>, t: seq<A>)
    requires multiset(s) == multiset(t)
    ensures multiset(Apply(f, s)) == multiset(Apply(f, t))
    decreases |s|
  {
    if s == [] {
      assert |t| == |multiset(t)| == 0;
    } else {
      var k := MatchFirst(s, t);
      var a, b := t[..k], t[k + 1..];
      ApplyPermutation(f, s[1..], a + b);
      assert s == [s[0]] + s[1..];
      ApplyConcat(f, [s[0]], s[1..]);
      assert t == a + [t[k]] + b;
      ApplyConcat(f, a + [t[k]], b);
      ApplyConcat(f, a, [t[k]]);
      ApplyConcat(f, a, b);
      assert Apply(f, [s[0]]) == [f(s[0])];
      assert multiset(Apply(f, s)) == multiset{f(s[0])} + multiset(Apply(f, s[1..]));
      assert multiset(Apply(f, t)) == multiset(Apply(f, a)) + multiset{f(s[0])} + multiset(Apply(f, b));
    }
  }
}
