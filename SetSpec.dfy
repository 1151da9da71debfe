/**
 * Specification of an insertion-ordered set stored as a sequence.
 *
 * A set's contents are a sequence without duplicates, in the order in which
 * its elements were first added. The functions below describe the sequences
 * that the set's operations produce; the lemmas state what those sequences
 * contain, that they stay duplicate-free, and how the operations relate.
 */
module SetSpec {

  /** No two positions of `s` hold equal elements. */
  ghost predicate NoDups<T>(s: seq<T>) {
    forall i, j :: 0 <= i < j < |s| ==> s[i] != s[j]
  }

  /** The elements of `s`, forgetting order and multiplicity. */
  ghost function Elems<T>(s: seq<T>): set<T> {
    set x | x in s
  }

  /** Every element of `s` occurs in `t`. */
  ghost predicate SubsetOf<T>(s: seq<T>, t: seq<T>) {
    forall x :: x in s ==> x in t
  }

  /** The contents after adding `v`: appended at the end when absent, otherwise unchanged. */
  function Insert<T(==)>(s: seq<T>, v: T): seq<T> {
    if v in s then s else s + [v]
  }

  /** The first-occurrence deduplication of `xs`: adding its elements one by one to an empty set. */
  function Dedup<T(==)>(xs: seq<T>): seq<T>
    decreases |xs|
  {
    if xs == [] then [] else Insert(Dedup(xs[..|xs| - 1]), xs[|xs| - 1])
  }

  /** The elements of `s` that do not occur in `t`, in the order of `s`. */
  function Minus<T(==)>(s: seq<T>, t: seq<T>): seq<T> {
    if s == [] then []
    else if s[0] in t then Minus(s[1..], t)
    else [s[0]] + Minus(s[1..], t)
  }

  /** The elements of `s` that occur in `t`, in the order of `s`. */
  function Inter<T(==)>(s: seq<T>, t: seq<T>): seq<T> {
    if s == [] then []
    else if s[0] in t then [s[0]] + Inter(s[1..], t)
    else Inter(s[1..], t)
  }

  /** `a` followed by the elements of `b` that are not in `a`. */
  function Union<T(==)>(a: seq<T>, b: seq<T>): seq<T> {
    a + Minus(b, a)
  }

  /** The elements of `a` not in `b`, then the elements of `b` not in `a`. */
  function SymDiff<T(==)>(a: seq<T>, b: seq<T>): seq<T> {
    Minus(a, b) + Minus(b, a)
  }

  // ---------------------------------------------------------------------------
  // Duplicate-free sequences

  /** Two duplicate-free sequences with no common element concatenate to a duplicate-free one. */
  lemma NoDupsConcat<T>(s: seq<T>, t: seq<T>)
    requires NoDups(s) && NoDups(t)
    requires forall x :: x in s ==> x !in t
    ensures NoDups(s + t)
  {
    forall i, j | 0 <= i < j < |s + t|
      ensures (s + t)[i] != (s + t)[j]
    {
      if j < |s| {
        assert (s + t)[i] == s[i] && (s + t)[j] == s[j];
      } else if |s| <= i {
        assert (s + t)[i] == t[i - |s|] && (s + t)[j] == t[j - |s|];
      } else {
        assert (s + t)[i] == s[i] && s[i] in s;
        assert (s + t)[j] == t[j - |s|] && t[j - |s|] in t;
      }
    }
  }

  /** Appending `x` keeps a sequence duplicate-free exactly when `x` is new to it. */
  lemma NoDupsSnoc<T>(p: seq<T>, x: T)
    ensures NoDups(p + [x]) <==> NoDups(p) && x !in p
  {
    if NoDups(p + [x]) {
      forall k | 0 <= k < |p|
        ensures p[k] != x
      {
        assert p[k] == (p + [x])[k] && x == (p + [x])[|p|];
      }
      forall i, j | 0 <= i < j < |p|
        ensures p[i] != p[j]
      {
        assert p[i] == (p + [x])[i] && p[j] == (p + [x])[j];
      }
    }
    if NoDups(p) && x !in p {
      NoDupsConcat(p, [x]);
    }
  }

  /** A non-empty sequence is duplicate-free exactly when its tail is and its head is not in the tail. */
  lemma NoDupsCons<T>(s: seq<T>)
    requires s != []
    ensures NoDups(s) <==> NoDups(s[1..]) && s[0] !in s[1..]
  {
    assert s == [s[0]] + s[1..];
    if NoDups(s) {
      forall k | 0 <= k < |s[1..]|
        ensures s[1..][k] != s[0]
      {
        assert s[1..][k] == s[k + 1];
      }
      forall i, j | 0 <= i < j < |s[1..]|
        ensures s[1..][i] != s[1..][j]
      {
        assert s[1..][i] == s[i + 1] && s[1..][j] == s[j + 1];
      }
    }
    if NoDups(s[1..]) && s[0] !in s[1..] {
      NoDupsConcat([s[0]], s[1..]);
    }
  }

  /** Every prefix of a duplicate-free sequence is duplicate-free. */
  lemma NoDupsPrefix<T>(s: seq<T>, n: nat)
    requires NoDups(s) && n <= |s|
    ensures NoDups(s[..n])
  {
    forall i, j | 0 <= i < j < n
      ensures s[..n][i] != s[..n][j]
    {
      assert s[..n][i] == s[i] && s[..n][j] == s[j];
    }
  }

  /** Concatenation is associative. */
  lemma ConcatAssoc<T>(r: seq<T>, s: seq<T>, t: seq<T>)
    ensures (r + s) + t == r + (s + t)
  {
  }

  // ---------------------------------------------------------------------------
  // Adding and deleting one element

  /** Adding keeps the contents duplicate-free. */
  lemma InsertNoDups<T>(s: seq<T>, v: T)
    requires NoDups(s)
    ensures NoDups(Insert(s, v))
  {
    NoDupsSnoc(s, v);
  }

  /** Adding the same value twice has the effect of adding it once. */
  lemma InsertIdempotent<T>(s: seq<T>, v: T)
    ensures Insert(Insert(s, v), v) == Insert(s, v)
  {
  }

  /** Deleting a value just added to a set that lacked it restores the set. */
  lemma DeleteUndoesInsert<T>(s: seq<T>, v: T)
    requires v !in s
    ensures Minus(Insert(s, v), [v]) == s
  {
    MinusConcat(s, [v], [v]);
    MinusNone(s, [v]);
    MinusSingleton(v, [v]);
    assert s + [] == s;
  }

  /** On a duplicate-free sequence, deleting a present value shrinks it by one; an absent one changes nothing. */
  lemma {:induction false} DeleteSize<T>(s: seq<T>, v: T)
    requires NoDups(s)
    ensures |Minus(s, [v])| == if v in s then |s| - 1 else |s|
    decreases |s|
  {
    if s != [] {
      assert s == [s[0]] + s[1..];
      NoDupsCons(s);
      DeleteSize(s[1..], v);
      if s[0] == v {
        MinusNone(s[1..], [v]);
      }
    }
  }

  /** The number of stored elements of a duplicate-free sequence is the number of distinct elements. */
  lemma {:induction false} SizeIsCardinality<T>(s: seq<T>)
    requires NoDups(s)
    ensures |Elems(s)| == |s|
    decreases |s|
  {
    if s != [] {
      var p, x := s[..|s| - 1], s[|s| - 1];
      assert s == p + [x];
      NoDupsSnoc(p, x);
      SizeIsCardinality(p);
      assert Elems(s) == Elems(p) + {x};
    }
  }

  // ---------------------------------------------------------------------------
  // Deduplication

  /** Deduplication keeps exactly the elements of its input. */
  lemma {:induction false} DedupMember<T>(xs: seq<T>, x: T)
    ensures x in Dedup(xs) <==> x in xs
    decreases |xs|
  {
    if xs != [] {
      var p, y := xs[..|xs| - 1], xs[|xs| - 1];
      assert xs == p + [y];
      DedupMember(p, x);
    }
  }

  /** Deduplication stores no element twice. */
  lemma {:induction false} DedupNoDups<T>(xs: seq<T>)
    ensures NoDups(Dedup(xs))
    decreases |xs|
  {
    if xs != [] {
      var p, y := xs[..|xs| - 1], xs[|xs| - 1];
      DedupNoDups(p);
      InsertNoDups(Dedup(p), y);
    }
  }

  /** Deduplication never lengthens, and keeps the length exactly when the input had no duplicates. */
  lemma {:induction false} DedupLength<T>(xs: seq<T>)
    ensures |Dedup(xs)| <= |xs|
    ensures |Dedup(xs)| == |xs| <==> NoDups(xs)
    decreases |xs|
  {
    if xs != [] {
      var p, y := xs[..|xs| - 1], xs[|xs| - 1];
      assert xs == p + [y];
      NoDupsSnoc(p, y);
      DedupMember(p, y);
      DedupLength(p);
    }
  }

  /** A duplicate-free sequence is its own deduplication. */
  lemma {:induction false} DedupOfNoDups<T>(xs: seq<T>)
    requires NoDups(xs)
    ensures Dedup(xs) == xs
    decreases |xs|
  {
    if xs != [] {
      var p, y := xs[..|xs| - 1], xs[|xs| - 1];
      assert xs == p + [y];
      NoDupsSnoc(p, y);
      DedupOfNoDups(p);
    }
  }

  /** Deduplicating one more element adds it when it is new. */
  lemma DedupSnoc<T>(xs: seq<T>, x: T)
    ensures Dedup(xs + [x]) == Insert(Dedup(xs), x)
  {
    assert (xs + [x])[..|xs|] == xs;
  }

  /**
   * Deduplicating a concatenation keeps the deduplicated first part and then
   * appends what is new in the second part, in its own first-occurrence order.
   */
  lemma {:induction false} DedupConcat<T>(a: seq<T>, b: seq<T>)
    ensures Dedup(a + b) == Dedup(a) + Minus(Dedup(b), a)
    decreases |b|
  {
    if b == [] {
      assert a + b == a;
    } else {
      var p, x := b[..|b| - 1], b[|b| - 1];
      assert b == p + [x];
      assert a + b == (a + p) + [x];
      DedupConcat(a, p);
      DedupConcatStep(a, p, x);
    }
  }

  /** One step of `DedupConcat`: extending the second part by one element. */
  lemma DedupConcatStep<T>(a: seq<T>, p: seq<T>, x: T)
    requires Dedup(a + p) == Dedup(a) + Minus(Dedup(p), a)
    ensures Dedup((a + p) + [x]) == Dedup(a) + Minus(Dedup(p + [x]), a)
  {
    DedupSnoc(a + p, x);
    DedupSnoc(p, x);
    DedupMember(a + p, x);
    DedupMember(p, x);
    if x !in p {
      MinusConcat(Dedup(p), [x], a);
      MinusSingleton(x, a);
      if x in a {
        assert Minus(Dedup(p), a) + [] == Minus(Dedup(p), a);
      } else {
        ConcatAssoc(Dedup(a), Minus(Dedup(p), a), [x]);
      }
    }
  }

  // ---------------------------------------------------------------------------
  // Filtering

  /** Difference keeps exactly the elements of `s` that are not in `t`. */
  lemma {:induction false} MinusMember<T>(s: seq<T>, t: seq<T>, x: T)
    ensures x in Minus(s, t) <==> x in s && x !in t
    decreases |s|
  {
    if s != [] {
      assert s == [s[0]] + s[1..];
      MinusMember(s[1..], t, x);
    }
  }

  /** Deleting the next element of `b` from `s` minus a prefix of `b` gives `s` minus the longer prefix. */
  lemma MinusNext<T>(s: seq<T>, b: seq<T>, i: nat)
    requires i < |b|
    ensures Minus(Minus(s, b[..i]), [b[i]]) == Minus(s, b[..i + 1])
  {
    assert b[..i + 1] == b[..i] + [b[i]];
    MinusMinus(s, b[..i], [b[i]]);
  }

  /** Difference keeps a duplicate-free sequence duplicate-free. */
  lemma {:induction false} MinusNoDups<T>(s: seq<T>, t: seq<T>)
    requires NoDups(s)
    ensures NoDups(Minus(s, t))
    decreases |s|
  {
    if s != [] {
      NoDupsCons(s);
      MinusNoDups(s[1..], t);
      MinusMember(s[1..], t, s[0]);
      if s[0] !in t {
        NoDupsConcat([s[0]], Minus(s[1..], t));
      }
    }
  }

  /** Intersection keeps exactly the elements of `s` that are in `t`. */
  lemma {:induction false} InterMember<T>(s: seq<T>, t: seq<T>, x: T)
    ensures x in Inter(s, t) <==> x in s && x in t
    decreases |s|
  {
    if s != [] {
      assert s == [s[0]] + s[1..];
      InterMember(s[1..], t, x);
    }
  }

  /** Intersection keeps a duplicate-free sequence duplicate-free. */
  lemma {:induction false} InterNoDups<T>(s: seq<T>, t: seq<T>)
    requires NoDups(s)
    ensures NoDups(Inter(s, t))
    decreases |s|
  {
    if s != [] {
      NoDupsCons(s);
      InterNoDups(s[1..], t);
      InterMember(s[1..], t, s[0]);
      if s[0] in t {
        NoDupsConcat([s[0]], Inter(s[1..], t));
      }
    }
  }

  /** Filtering distributes over concatenation, so it keeps relative order. */
  lemma {:induction false} MinusConcat<T>(s: seq<T>, t: seq<T>, u: seq<T>)
    ensures Minus(s + t, u) == Minus(s, u) + Minus(t, u)
    decreases |s|
  {
    if s == [] {
      assert s + t == t;
    } else {
      assert (s + t)[1..] == s[1..] + t;
      MinusConcat(s[1..], t, u);
    }
  }

  /** Removing `t` and then `u` is removing `t + u`. */
  lemma {:induction false} MinusMinus<T>(s: seq<T>, t: seq<T>, u: seq<T>)
    ensures Minus(Minus(s, t), u) == Minus(s, t + u)
    decreases |s|
  {
    if s != [] {
      MinusMinus(s[1..], t, u);
    }
  }

  /** Removing elements that do not occur leaves the sequence unchanged. */
  lemma {:induction false} MinusNone<T>(s: seq<T>, t: seq<T>)
    requires forall x :: x in s ==> x !in t
    ensures Minus(s, t) == s
    decreases |s|
  {
    if s != [] {
      assert s == [s[0]] + s[1..];
      MinusNone(s[1..], t);
    }
  }

  /** Filtering a one-element sequence keeps its element exactly when it is not in `t`. */
  lemma MinusSingleton<T>(x: T, t: seq<T>)
    ensures Minus([x], t) == if x in t then [] else [x]
  {
    assert [x][1..] == [];
  }

  /** On `s`, removing the members of `t` keeps what `u` keeps when membership in `t` and in `u` are opposite. */
  lemma {:induction false} MinusAsInter<T>(s: seq<T>, t: seq<T>, u: seq<T>)
    requires forall x :: x in s ==> (x in t <==> x !in u)
    ensures Minus(s, t) == Inter(s, u)
    decreases |s|
  {
    if s != [] {
      assert s == [s[0]] + s[1..];
      MinusAsInter(s[1..], t, u);
    }
  }

  /** `s` is a subset of `t` exactly when intersecting `s` with `t` keeps all of `s`. */
  lemma {:induction false} SubsetIffInterKeepsAll<T>(s: seq<T>, t: seq<T>)
    ensures SubsetOf(s, t) <==> Inter(s, t) == s
    decreases |s|
  {
    if s != [] {
      assert s == [s[0]] + s[1..];
      SubsetIffInterKeepsAll(s[1..], t);
      if Inter(s, t) == s {
        forall x | x in s
          ensures x in t
        {
          InterMember(s, t, x);
        }
      }
      if SubsetOf(s, t) {
        assert s[0] in t;
        assert SubsetOf(s[1..], t);
      }
    }
  }

  /** `s` is a subset of `t` exactly when the difference `s` minus `t` is empty. */
  lemma SubsetIffMinusEmpty<T>(s: seq<T>, t: seq<T>)
    ensures SubsetOf(s, t) <==> Minus(s, t) == []
  {
    if Minus(s, t) == [] {
      forall x | x in s
        ensures x in t
      {
        MinusMember(s, t, x);
      }
    } else {
      var x := Minus(s, t)[0];
      MinusMember(s, t, x);
    }
  }

  // ---------------------------------------------------------------------------
  // Union

  /** The union holds exactly the elements of either operand. */
  lemma UnionMember<T>(a: seq<T>, b: seq<T>, x: T)
    ensures x in Union(a, b) <==> x in a || x in b
  {
    MinusMember(b, a, x);
  }

  /** The union of duplicate-free sequences is duplicate-free. */
  lemma UnionNoDups<T>(a: seq<T>, b: seq<T>)
    requires NoDups(a) && NoDups(b)
    ensures NoDups(Union(a, b))
  {
    MinusNoDups(b, a);
    forall x | x in a
      ensures x !in Minus(b, a)
    {
      MinusMember(b, a, x);
    }
    NoDupsConcat(a, Minus(b, a));
  }

  /** Building a set from the contents of two sets, one after the other, gives their union. */
  lemma UnionIsDedup<T>(a: seq<T>, b: seq<T>)
    requires NoDups(a) && NoDups(b)
    ensures Dedup(a + b) == Union(a, b)
  {
    DedupConcat(a, b);
    DedupOfNoDups(a);
    DedupOfNoDups(b);
  }

  // ---------------------------------------------------------------------------
  // Symmetric difference

  /** The symmetric difference holds exactly the elements of one operand but not the other. */
  lemma SymDiffMember<T>(a: seq<T>, b: seq<T>, x: T)
    ensures x in SymDiff(a, b) <==> (x in a) != (x in b)
  {
    MinusMember(a, b, x);
    MinusMember(b, a, x);
  }

  /** The symmetric difference of duplicate-free sequences is duplicate-free. */
  lemma SymDiffNoDups<T>(a: seq<T>, b: seq<T>)
    requires NoDups(a) && NoDups(b)
    ensures NoDups(SymDiff(a, b))
  {
    MinusNoDups(a, b);
    MinusNoDups(b, a);
    forall x | x in Minus(a, b)
      ensures x !in Minus(b, a)
    {
      MinusMember(a, b, x);
      MinusMember(b, a, x);
    }
    NoDupsConcat(Minus(a, b), Minus(b, a));
  }

  /** The symmetric difference with nothing is the original sequence. */
  lemma SymDiffNothing<T>(a: seq<T>)
    ensures SymDiff(a, []) == a
  {
    MinusNone(a, []);
    assert a + [] == a;
  }

  /**
   * One step of building a symmetric difference: toggling an element `x` that is
   * new to `p` turns the symmetric difference with `p` into that with `p + [x]`.
   */
  lemma SymDiffStep<T>(a: seq<T>, p: seq<T>, x: T)
    requires NoDups(p + [x])
    ensures x in SymDiff(a, p) ==> Minus(SymDiff(a, p), [x]) == SymDiff(a, p + [x])
    ensures x !in SymDiff(a, p) ==> Insert(SymDiff(a, p), x) == SymDiff(a, p + [x])
  {
    NoDupsSnoc(p, x);
    SymDiffMember(a, p, x);
    if x in a {
      SymDiffStepShared(a, p, x);
    } else {
      SymDiffStepNew(a, p, x);
    }
  }

  /** `SymDiffStep` when `x` is in `a`: the step deletes it. */
  lemma SymDiffStepShared<T>(a: seq<T>, p: seq<T>, x: T)
    requires x in a && x !in p
    ensures Minus(SymDiff(a, p), [x]) == SymDiff(a, p + [x])
  {
    var ma, mp := Minus(a, p), Minus(p, a);
    forall y | y in mp
      ensures y !in [x]
    {
      MinusMember(p, a, y);
    }
    calc {
      Minus(SymDiff(a, p), [x]);
      Minus(ma + mp, [x]);
      { MinusConcat(ma, mp, [x]); }
      Minus(ma, [x]) + Minus(mp, [x]);
      { MinusMinus(a, p, [x]); MinusNone(mp, [x]); }
      Minus(a, p + [x]) + mp;
      { MinusSingleton(x, a); assert mp + [] == mp; }
      Minus(a, p + [x]) + (mp + Minus([x], a));
      { MinusConcat(p, [x], a); }
      SymDiff(a, p + [x]);
    }
  }

  /** `SymDiffStep` when `x` is not in `a`: the step appends it. */
  lemma SymDiffStepNew<T>(a: seq<T>, p: seq<T>, x: T)
    requires x !in a && x !in p
    ensures Insert(SymDiff(a, p), x) == SymDiff(a, p + [x])
  {
    var ma, mp := Minus(a, p), Minus(p, a);
    SymDiffMember(a, p, x);
    forall y | y in ma
      ensures y !in [x]
    {
      MinusMember(a, p, y);
    }
    calc {
      Insert(SymDiff(a, p), x);
      (ma + mp) + [x];
      { ConcatAssoc(ma, mp, [x]); }
      ma + (mp + [x]);
      { MinusSingleton(x, a); }
      ma + (mp + Minus([x], a));
      { MinusConcat(p, [x], a); }
      ma + Minus(p + [x], a);
      { MinusMinus(a, p, [x]); MinusNone(ma, [x]); }
      Minus(a, p + [x]) + Minus(p + [x], a);
    }
  }

  /**
   * Toggling the next element of a duplicate-free `b` in the symmetric
   * difference of `a` with a prefix of `b` gives the one with the longer prefix.
   */
  lemma SymDiffToggle<T>(a: seq<T>, b: seq<T>, i: nat, cur: seq<T>)
    requires NoDups(b) && i < |b| && cur == SymDiff(a, b[..i])
    ensures b[i] in cur ==> Minus(cur, [b[i]]) == SymDiff(a, b[..i + 1])
    ensures b[i] !in cur ==> Insert(cur, b[i]) == SymDiff(a, b[..i + 1])
  {
    assert b[..i + 1] == b[..i] + [b[i]];
    NoDupsPrefix(b, i + 1);
    SymDiffStep(a, b[..i], b[i]);
  }

  /** Removing `b` from a symmetric difference with `b` leaves what `a` has outside `b`. */
  lemma SymDiffMinusRight<T>(a: seq<T>, b: seq<T>)
    ensures Minus(SymDiff(a, b), b) == Minus(a, b)
  {
    var ma, mb := Minus(a, b), Minus(b, a);
    MinusConcat(ma, mb, b);
    forall y | y in ma
      ensures y !in b
    {
      MinusMember(a, b, y);
    }
    MinusNone(ma, b);
    forall y | y in mb
      ensures y in b
    {
      MinusMember(b, a, y);
    }
    SubsetIffMinusEmpty(mb, b);
    assert ma + [] == ma;
  }

  /** What `b` has outside a symmetric difference with `b` is what `b` shares with `a`. */
  lemma SymDiffMinusLeft<T>(a: seq<T>, b: seq<T>)
    ensures Minus(b, SymDiff(a, b)) == Inter(b, a)
  {
    forall y | y in b
      ensures y in SymDiff(a, b) <==> y !in a
    {
      SymDiffMember(a, b, y);
    }
    MinusAsInter(b, SymDiff(a, b), a);
  }

  /**
   * Taking the symmetric difference with `b` twice gives back the elements of
   * `a`: those outside `b` in the order of `a`, then the shared ones in the order of `b`.
   */
  lemma SymDiffTwice<T>(a: seq<T>, b: seq<T>)
    ensures SymDiff(SymDiff(a, b), b) == Minus(a, b) + Inter(b, a)
  {
    SymDiffMinusRight(a, b);
    SymDiffMinusLeft(a, b);
  }

  /** Taking the symmetric difference with `b` twice keeps exactly the elements of `a`. */
  lemma SymDiffTwiceMember<T>(a: seq<T>, b: seq<T>, x: T)
    ensures x in SymDiff(SymDiff(a, b), b) <==> x in a
  {
    SymDiffTwice(a, b);
    MinusMember(a, b, x);
    InterMember(b, a, x);
  }
}
