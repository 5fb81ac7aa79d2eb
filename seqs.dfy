/** Facts about prefixes of sequences, stated once for every element type
    so that proofs about sequences of strings need not compare strings. */
module Seqs {
  import opened Wrappers

  /** The prefix of length `j` of the prefix of length `j + 1`, and its last element. */
  lemma TakeSnoc<T>(s: seq<T>, j: nat)
    requires j < |s|
    ensures s[..j + 1][..j] == s[..j]
    ensures s[..j + 1] == s[..j] + [s[j]]
  {
  }

  /** The whole sequence as its own prefix. */
  lemma TakeAll<T>(s: seq<T>)
    ensures s[..|s|] == s
  {
  }

  /** Taking one more element of `s` after `a` appends that element. */
  lemma PrefixSnoc<T>(a: seq<T>, s: seq<T>, j: nat)
    requires j < |s|
    ensures a + s[..j + 1] == (a + s[..j]) + [s[j]]
  {
    assert s[..j + 1] == s[..j] + [s[j]];
  }

  /** Taking none of `s` after `a` leaves `a`; taking all of it appends it. */
  lemma PrefixEnds<T>(a: seq<T>, s: seq<T>)
    ensures a + s[..0] == a
    ensures a + s[..|s|] == a + s
  {
    assert s[..0] == [];
    assert s[..|s|] == s;
  }

  /** Appending in two steps is appending the concatenation. */
  lemma AppendAssoc<T>(a: seq<T>, b: seq<T>, c: seq<T>)
    ensures (a + b) + c == a + (b + c)
  {
  }

  /** A first element, then three parts, regrouped after that element. */
  lemma ConsRegroup<T>(a: T, x: seq<T>, y: seq<T>, z: seq<T>)
    ensures [a] + x + y + z == [a] + (x + y + z)
  {
  }

  /** The first of three parts split into its head and the rest. */
  lemma HeadRegroup<T>(x: seq<T>, y: seq<T>, z: seq<T>)
    requires |x| > 0
    ensures x + y + z == [x[0]] + (x[1..] + y + z)
  {
    assert x == [x[0]] + x[1..];
  }

  /** Five parts, the second and the fourth single elements, and where
      each one sits in their concatenation. */
  lemma FiveParts<T>(a: seq<T>, x: T, b: seq<T>, y: T, c: seq<T>)
    ensures var s := a + [x] + b + [y] + c;
      |s| == |a| + |b| + |c| + 2 && s[0..|a|] == a && s[|a|] == x && s[|a| + 1..|a| + 1 + |b|] == b
      && s[|a| + 1 + |b|] == y && s[|a| + 2 + |b|..] == c
  {
  }

  /** Five parts, regrouped from the right. */
  lemma FiveRegroup<T>(a: seq<T>, x: T, b: seq<T>, y: T, c: seq<T>)
    ensures a + [x] + b + [y] + c == a + ([x] + (b + ([y] + c)))
  {
  }

  /** In a sequence without repeats, nothing of its second part occurs in its first. */
  lemma {:induction false} DistinctParts<T>(a: seq<T>, b: seq<T>, x: T)
    requires forall i, j :: 0 <= i < j < |a + b| ==> (a + b)[i] != (a + b)[j]
    requires x in b
    ensures x !in a
  {
    var bi :| 0 <= bi < |b| && b[bi] == x;
    forall ai | 0 <= ai < |a|
      ensures a[ai] != x
    {
      assert (a + b)[ai] == a[ai] && (a + b)[|a| + bi] == x;
    }
  }

  /** The first `k` from `c` to `last` with `f(k)`, if any. */
  function FirstFrom(f: int -> bool, c: int, last: int): Option<int>
    decreases last + 1 - c
  {
    if c > last then None
    else if f(c) then Some(c)
    else FirstFrom(f, c + 1, last)
  }

  /** `FirstFrom` finds nothing exactly when no `k` from `c` to `last`
      satisfies `f`, and otherwise the least one that does. */
  lemma {:induction false} FirstFromSpec(f: int -> bool, c: int, last: int)
    decreases last + 1 - c
    ensures var r := FirstFrom(f, c, last);
      (r.None? <==> forall k :: c <= k <= last ==> !f(k))
      && (r.Some? ==> c <= r.value <= last && f(r.value) && forall k :: c <= k < r.value ==> !f(k))
  {
    if c <= last && !f(c) {
      FirstFromSpec(f, c + 1, last);
    }
  }
}
