/** Facts about sequence prefixes that loops over a list use at every turn. */
module Seqs {
  /** The prefix one longer is the prefix extended by the next element. */
  lemma TakeSnoc<T>(s: seq<T>, i: nat)
    requires i < |s|
    ensures s[..i + 1] == s[..i] + [s[i]]
  {
  }

  /** Replacing the element at `i` extends the prefix before it by the new
      element and leaves the rest alone. */
  lemma UpdateTake<T>(s: seq<T>, i: nat, x: T)
    requires i < |s|
    ensures s[i := x][..i] == s[..i]
    ensures s[i := x][..i + 1] == s[..i] + [x]
    ensures s[i := x][i + 1..] == s[i + 1..]
  {
  }

  lemma FullTake<T>(s: seq<T>)
    ensures s[..|s|] == s
  {
  }

  /** A prefix holds each element at most as often as the whole. */
  lemma TakeMultiset<T>(s: seq<T>, i: nat)
    requires i <= |s|
    ensures multiset(s[..i]) <= multiset(s)
  {
    assert s == s[..i] + s[i..];
  }

  /** The one longer prefix counts the next element once more. */
  lemma TakeMultisetSnoc<T>(s: seq<T>, i: nat)
    requires i < |s|
    ensures multiset(s[..i + 1]) == multiset(s[..i]) + multiset{s[i]}
  {
    TakeSnoc(s, i);
  }

  /** Moving the first element of `s` to the end of `a`. */
  lemma AppendFirst<T>(a: seq<T>, s: seq<T>)
    requires s != []
    ensures a + [s[0]] + s[1..] == a + s
  {
    assert s == [s[0]] + s[1..];
  }

  /** The suffix from `i` starts with `s[i]`, followed by the suffix from `i + 1`. */
  lemma DropOne<T>(s: seq<T>, i: nat)
    requires i < |s|
    ensures s[i..] != [] && s[i..][0] == s[i] && s[i..][1..] == s[i + 1..]
  {
  }

  /** The one longer prefix, cut back, and its last element. */
  lemma TakeTake<T>(s: seq<T>, i: nat)
    requires i < |s|
    ensures |s[..i + 1]| == i + 1 && s[..i + 1][..i] == s[..i] && s[..i + 1][i] == s[i]
  {
  }

  lemma ConcatTail<T>(a: seq<T>, b: seq<T>, c: seq<T>, d: seq<T>, e: seq<T>)
    ensures a + b + c + d + e == a + b + (c + d + e)
  {
  }

  lemma PairSplit<T>(a: seq<T>, x: T, y: T)
    ensures a + [x, y] == a + [x] + [y]
  {
  }

  lemma InSuffix<T>(s: seq<T>, k: nat, x: T)
    requires k <= |s| && x in s[k..]
    ensures x in s
  {
    var i :| 0 <= i < |s[k..]| && s[k..][i] == x;
    assert s[k + i] == x;
  }

  /** The first position of `x` in `s`. */
  function Position<T(==)>(s: seq<T>, x: T): (i: nat)
    requires x in s
    ensures i < |s| && s[i] == x
  {
    if s[0] == x then 0 else 1 + Position(s[1..], x)
  }
}
