/** Regrouping facts about sequence concatenation, stated once so that the
    proofs using them need not rediscover them. */
module Seqs {
  lemma AppendAssoc<T>(a: seq<T>, b: seq<T>, c: seq<T>)
    ensures (a + b) + c == a + (b + c)
  {
  }

  lemma AppendAssoc4<T>(a: seq<T>, b: seq<T>, c: seq<T>, d: seq<T>)
    ensures a + b + c + d == a + (b + c + d)
  {
  }

  lemma Reassociate<T>(a: seq<T>, d: seq<T>, j: seq<T>, nl: seq<T>, r: seq<T>)
    ensures a + d + j + nl + r == a + (d + (j + nl + r))
  {
  }

  lemma ConsTail<T>(xs: seq<T>, ys: seq<T>)
    requires ys != []
    ensures xs + [ys[0]] + ys[1..] == xs + ys
  {
  }

  lemma SplitThree<T>(s: seq<T>)
    requires |s| >= 3
    ensures [s[0], s[1], s[2]] + s[3..] == s
  {
  }
}
