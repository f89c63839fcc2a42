/** Concatenation facts, stated once and apart so that proofs about texts and
    lists need not rediscover them. */
module Sequences {
  lemma Associate<E>(a: seq<E>, b: seq<E>, c: seq<E>)
    ensures (a + b) + c == a + (b + c)
  {
  }

  lemma ConsAppend<E>(s: seq<E>, t: seq<E>)
    requires s != []
    ensures s + t == [s[0]] + (s[1..] + t)
  {
  }

  lemma MoveHead<E>(a: seq<E>, b: seq<E>)
    requires b != []
    ensures a + b == (a + [b[0]]) + b[1..]
  {
  }

  lemma SliceAppend<E>(a: seq<E>, b: seq<E>, n: nat)
    requires n <= |a|
    ensures (a + b)[..n] == a[..n] && (a + b)[n..] == a[n..] + b
  {
  }

  lemma SameFrontAndLast<E>(p: seq<E>, q: seq<E>)
    requires p != [] && q != [] && p[|p| - 1] == q[|q| - 1] && p[..|p| - 1] == q[..|q| - 1]
    ensures p == q
  {
    assert p == p[..|p| - 1] + [p[|p| - 1]] && q == q[..|q| - 1] + [q[|q| - 1]];
  }
}
