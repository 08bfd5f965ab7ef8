/**
 * The one operation every duplicate-filter backend offers, on an abstract
 * seen-set: "claim or detect duplicate". Claiming `x` answers whether `x` was
 * already present and leaves `x` present. Each backend's `RequestsSeen`
 * (`request_seen` asked about a sequence of requests) is proved to return
 * `Answers` and leave `After` in its store, so the lemmas here apply to any
 * sequence of calls on one store (each store operation being one atomic step
 * of that store, whichever worker issues it).
 */
module SeenSet {

  /** The answers that claiming `xs` in order returns, starting from `s`. */
  function Answers<T>(s: set<T>, xs: seq<T>): (r: seq<bool>)
    ensures |r| == |xs|
    decreases xs
  {
    if xs == [] then [] else [xs[0] in s] + Answers(s + {xs[0]}, xs[1..])
  }

  /** The seen-set after claiming `xs` in order, starting from `s`. */
  function After<T>(s: set<T>, xs: seq<T>): (r: set<T>)
    decreases xs
  {
    if xs == [] then s else After(s + {xs[0]}, xs[1..])
  }

  /** One claim, taken from the middle of a sequence of claims. */
  lemma ClaimStep<T>(s: set<T>, xs: seq<T>, i: nat)
    requires i < |xs|
    ensures Answers(s, xs[i..]) == [xs[i] in s] + Answers(s + {xs[i]}, xs[i + 1..])
    ensures After(s, xs[i..]) == After(s + {xs[i]}, xs[i + 1..])
  {
    assert xs[i..][1..] == xs[i + 1..];
  }

  /** The set only grows, and grows by exactly the claimed values. */
  lemma {:induction false} AfterIsUnion<T>(s: set<T>, xs: seq<T>)
    ensures After(s, xs) == s + set x | x in xs
    decreases xs
  {
    if xs != [] {
      AfterIsUnion(s + {xs[0]}, xs[1..]);
      assert (set x | x in xs) == {xs[0]} + set x | x in xs[1..];
    }
  }

  /** A claim answers "seen" exactly when the value was in the initial set or
      was claimed earlier in the sequence; other values never matter. */
  lemma {:induction false} AnswerAt<T>(s: set<T>, xs: seq<T>, i: nat)
    requires i < |xs|
    ensures Answers(s, xs)[i] == (xs[i] in s || xs[i] in xs[..i])
    decreases xs
  {
    if i > 0 {
      AnswerAt(s + {xs[0]}, xs[1..], i - 1);
      assert xs[1..][..i - 1] == xs[1..i];
      assert xs[..i] == [xs[0]] + xs[1..i];
    }
  }

  /** Two claims of the same value never both succeed. */
  lemma AtMostOneClaim<T>(s: set<T>, xs: seq<T>, i: nat, j: nat)
    requires i < j < |xs| && xs[i] == xs[j]
    ensures Answers(s, xs)[j]
  {
    AnswerAt(s, xs, j);
    assert xs[i] in xs[..j];
  }

  /** For a value absent from the initial set, exactly one of its claims
      succeeds: the first. */
  lemma ExactlyOneClaim<T>(s: set<T>, xs: seq<T>, x: T)
    requires x !in s && x in xs
    ensures |set i | 0 <= i < |xs| && xs[i] == x && !Answers(s, xs)[i]| == 1
  {
    var k0 :| 0 <= k0 < |xs| && xs[k0] == x;
    var k := FirstIndex(xs, x, k0);
    var claims := set i | 0 <= i < |xs| && xs[i] == x && !Answers(s, xs)[i];
    AnswerAt(s, xs, k);
    assert k in claims;
    forall i | k < i < |xs| && xs[i] == x ensures Answers(s, xs)[i] {
      AnswerAt(s, xs, i);
      assert xs[k] in xs[..i];
    }
    assert claims == {k};
  }

  lemma {:induction false} FirstIndex<T>(xs: seq<T>, x: T, k0: nat) returns (k: nat)
    requires k0 < |xs| && xs[k0] == x
    ensures k <= k0 && xs[k] == x && forall j :: 0 <= j < k ==> xs[j] != x
  {
    k := 0;
    while xs[k] != x
      invariant k <= k0
      decreases k0 - k
      invariant forall j :: 0 <= j < k ==> xs[j] != x
    {
      k := k + 1;
    }
  }
}
