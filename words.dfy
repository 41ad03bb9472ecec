/**
 * Vocabulary shared by both implementations of the nesting index: words over
 * natural-number letters, double occurrence words (DOWs), the distinct letters
 * of a word in first-occurrence order, and the canonical relabelling that
 * numbers the letter pairs 1, 2, ... in the order in which they first occur.
 */
module Dow {

  datatype Option<T> = None | Some(value: T)

  /** Number of occurrences of the letter x in w. */
  function Count(w: seq<nat>, x: nat): nat
  {
    multiset(w)[x]
  }

  /** A double occurrence word: every letter that occurs in w occurs exactly twice. */
  predicate IsDow(w: seq<nat>)
  {
    forall i :: 0 <= i < |w| ==> Count(w, w[i]) == 2
  }

  predicate NoDup<T(==)>(s: seq<T>)
  {
    forall i, j :: 0 <= i < j < |s| ==> s[i] != s[j]
  }

  /** Two words of the same length with equal letters at exactly the same pairs of positions. */
  predicate SamePattern(u: seq<nat>, v: seq<nat>)
  {
    |u| == |v| && forall i, j :: 0 <= i < |u| && 0 <= j < |u| ==> (u[i] == u[j] <==> v[i] == v[j])
  }

  function Zeros(n: nat): (r: seq<nat>)
    ensures |r| == n && forall i :: 0 <= i < n ==> r[i] == 0
  {
    seq(n, _ => 0)
  }

  /** The labels 1, 2, ..., m. */
  function Iota(m: nat): (r: seq<nat>)
    ensures |r| == m && forall t :: 0 <= t < m ==> r[t] == t + 1
  {
    seq(m, t => t + 1)
  }

  /** The climbing run a, a+1, ..., a+n-1. */
  function Run(a: nat, n: nat): (r: seq<nat>)
    ensures |r| == n && forall t :: 0 <= t < n ==> r[t] == a + t
  {
    seq(n, t => a + t)
  }

  function Reverse<T>(s: seq<T>): (r: seq<T>)
    ensures |r| == |s| && forall i :: 0 <= i < |s| ==> r[i] == s[|s| - 1 - i]
  {
    seq(|s|, i requires 0 <= i < |s| => s[|s| - 1 - i])
  }

  /** Rotation to the left by k positions: the first k letters move to the end. */
  function RotateLeft<T>(s: seq<T>, k: nat): (r: seq<T>)
    requires k <= |s|
    ensures |r| == |s|
    ensures forall i :: 0 <= i < |s| ==> r[i] == if i + k < |s| then s[i + k] else s[i + k - |s|]
  {
    s[k..] + s[..k]
  }

  lemma RotateTwice(s: seq<nat>, k: nat)
    requires k < |s|
    ensures RotateLeft(RotateLeft(s, k), 1) == RotateLeft(s, k + 1)
  {
  }

  lemma RotateFull(s: seq<nat>)
    ensures RotateLeft(s, |s|) == s && RotateLeft(s, 0) == s
  {
    assert s[|s|..] + s[..|s|] == s;
    assert s[0..] + s[..0] == s;
  }

  /** Index of the first occurrence of x in s, or |s| when x does not occur. */
  function IndexOf<T(==)>(s: seq<T>, x: T): (r: nat)
    ensures r <= |s| && x !in s[..r]
    ensures r < |s| <==> x in s
    ensures r < |s| ==> s[r] == x
  {
    if s == [] then 0
    else if s[0] == x then 0
    else
      var k := IndexOf(s[1..], x);
      assert s[..k + 1] == [s[0]] + s[1..][..k];
      k + 1
  }

  lemma IndexOfUnique<T>(s: seq<T>, x: T, p: nat)
    requires p < |s| && s[p] == x && x !in s[..p]
    ensures IndexOf(s, x) == p
  {
    var k := IndexOf(s, x);
    if k < p {
      assert false;
    } else if p < k {
      assert false;
    }
  }

  lemma NoDupIndexOf<T>(s: seq<T>, k: nat)
    requires NoDup(s) && k < |s|
    ensures IndexOf(s, s[k]) == k
  {
    var r := IndexOf(s, s[k]);
    assert s[r] == s[k];
  }

  lemma PrefixSnoc<T>(s: seq<T>, k: nat)
    requires k < |s|
    ensures s[..k + 1] == s[..k] + [s[k]]
  {
  }

  /**
   * The elements of s without repetitions, each kept at its first occurrence,
   * in order (for a word: its distinct letters in first-occurrence order).
   */
  function Dedup<T(==)>(s: seq<T>): (r: seq<T>)
    ensures |r| <= |s|
  {
    if s == [] then []
    else
      var r0 := Dedup(s[..|s| - 1]);
      if s[|s| - 1] in r0 then r0 else r0 + [s[|s| - 1]]
  }

  lemma DedupSnoc<T>(s: seq<T>, x: T)
    ensures Dedup(s + [x]) == if x in Dedup(s) then Dedup(s) else Dedup(s) + [x]
  {
    assert (s + [x])[..|s|] == s;
  }

  /** Dedup keeps every element once and invents none. */
  lemma {:induction false} DedupSpec<T>(s: seq<T>)
    ensures NoDup(Dedup(s))
    ensures forall x :: x in Dedup(s) <==> x in s
  {
    if s != [] {
      var s0, y := s[..|s| - 1], s[|s| - 1];
      assert s == s0 + [y];
      DedupSpec(s0);
      DedupSnoc(s0, y);
    }
  }

  lemma DedupMember<T>(s: seq<T>, x: T)
    ensures x in Dedup(s) <==> x in s
  {
    DedupSpec(s);
  }

  /** Extending a prefix by one position adds a distinct element exactly at a first occurrence. */
  lemma DedupPrefixLength<T>(s: seq<T>, k: nat)
    requires k < |s|
    ensures |Dedup(s[..k + 1])| == |Dedup(s[..k])| + if s[k] in s[..k] then 0 else 1
    ensures Dedup(s[..k + 1]) == if s[k] in s[..k] then Dedup(s[..k]) else Dedup(s[..k]) + [s[k]]
  {
    PrefixSnoc(s, k);
    DedupSnoc(s[..k], s[k]);
    DedupMember(s[..k], s[k]);
  }

  /** Deduplicating a prefix of s gives a prefix of the deduplicated s. */
  lemma {:induction false} DedupPrefix<T>(s: seq<T>, k: nat)
    requires k <= |s|
    ensures |Dedup(s[..k])| <= |Dedup(s)|
    ensures Dedup(s[..k]) == Dedup(s)[..|Dedup(s[..k])|]
    decreases |s| - k
  {
    if k < |s| {
      DedupPrefix(s, k + 1);
      DedupPrefixLength(s, k);
    } else {
      assert s[..k] == s;
    }
  }

  /** The element at a first occurrence sits in Dedup(s) right after the distinct elements before it. */
  lemma FirstOccurrenceRank<T>(s: seq<T>, p: nat)
    requires p < |s| && s[p] !in s[..p]
    ensures |Dedup(s[..p])| < |Dedup(s)|
    ensures Dedup(s)[|Dedup(s[..p])|] == s[p]
    ensures IndexOf(Dedup(s), s[p]) == |Dedup(s[..p])|
  {
    var d := Dedup(s);
    var m := |Dedup(s[..p])|;
    assert m < |d| && d[m] == s[p] by {
      DedupPrefix(s, p + 1);
      DedupPrefixLength(s, p);
    }
    DedupSpec(s);
    NoDupIndexOf(d, m);
  }

  /** Dedup lists the elements in the order of their first occurrences in s. */
  lemma DedupOrder<T>(s: seq<T>, i: nat, j: nat)
    requires i < j < |Dedup(s)|
    ensures IndexOf(s, Dedup(s)[i]) < IndexOf(s, Dedup(s)[j]) < |s|
  {
    var d := Dedup(s);
    DedupSpec(s);
    DedupMember(s, d[i]);
    DedupMember(s, d[j]);
    var p, q := IndexOf(s, d[i]), IndexOf(s, d[j]);
    if q <= p {
      assert s[..p][..q] == s[..q];
      assert |Dedup(s[..q])| == j by {
        FirstOccurrenceRank(s, q);
        NoDupIndexOf(d, j);
      }
      assert |Dedup(s[..p])| == i by {
        FirstOccurrenceRank(s, p);
        NoDupIndexOf(d, i);
      }
      DedupPrefix(s[..p], q);
      assert false;
    }
  }

  /** Sum of the occurrence counts in w of the letters listed in ls. */
  function SumCounts(ls: seq<nat>, w: seq<nat>): nat
  {
    if ls == [] then 0 else SumCounts(ls[..|ls| - 1], w) + Count(w, ls[|ls| - 1])
  }

  lemma {:induction false} SumCountsSnoc(ls: seq<nat>, w: seq<nat>, y: nat)
    requires NoDup(ls)
    ensures SumCounts(ls, w + [y]) == SumCounts(ls, w) + if y in ls then 1 else 0
  {
    assert multiset(w + [y]) == multiset(w) + multiset{y};
    if ls != [] {
      var init := ls[..|ls| - 1];
      SumCountsSnoc(init, w, y);
      assert ls == init + [ls[|ls| - 1]];
    }
  }

  lemma {:induction false} SumCountsConst(ls: seq<nat>, w: seq<nat>, c: nat)
    requires forall k :: 0 <= k < |ls| ==> Count(w, ls[k]) == c
    ensures SumCounts(ls, w) == c * |ls|
  {
    if ls != [] {
      SumCountsConst(ls[..|ls| - 1], w, c);
    }
  }

  /** The sum over a prefix of the list is at most the sum over the whole list. */
  lemma {:induction false} SumCountsPrefix(ls: seq<nat>, w: seq<nat>, k: nat)
    requires k <= |ls|
    ensures SumCounts(ls[..k], w) <= SumCounts(ls, w)
    ensures k < |ls| ==> SumCounts(ls[..k], w) + Count(w, ls[k]) <= SumCounts(ls, w)
    decreases |ls| - k
  {
    if k < |ls| {
      SumCountsPrefix(ls, w, k + 1);
      PrefixSnoc(ls, k);
      assert (ls[..k + 1])[..k] == ls[..k];
    } else {
      assert ls[..k] == ls;
    }
  }

  /** The counts of the distinct letters of w add up to the length of w. */
  lemma {:induction false} DedupCountsSum(w: seq<nat>)
    ensures SumCounts(Dedup(w), w) == |w|
  {
    if w != [] {
      var v, y := w[..|w| - 1], w[|w| - 1];
      assert w == v + [y];
      DedupCountsSum(v);
      DedupSnoc(v, y);
      DedupSpec(v);
      SumCountsSnoc(Dedup(v), v, y);
      assert multiset(w) == multiset(v) + multiset{y};
      if y !in Dedup(v) {
        assert Count(v, y) == 0;
        assert Dedup(w)[..|Dedup(w)| - 1] == Dedup(v);
      }
    }
  }

  /** A DOW has even length and half as many distinct letters as positions. */
  lemma DowLength(w: seq<nat>)
    requires IsDow(w)
    ensures |w| % 2 == 0 && |Dedup(w)| * 2 == |w|
  {
    DedupCountsSum(w);
    var d := Dedup(w);
    DedupSpec(w);
    forall k | 0 <= k < |d| ensures Count(w, d[k]) == 2 {
      assert d[k] in w;
      var i := IndexOf(w, d[k]);
    }
    SumCountsConst(d, w, 2);
  }

  lemma CountSplit(w: seq<nat>, p: nat, x: nat)
    requires p < |w|
    ensures Count(w, x) == Count(w[..p], x) + (if w[p] == x then 1 else 0) + Count(w[p + 1..], x)
  {
    assert w == w[..p] + [w[p]] + w[p + 1..];
    assert multiset(w) == multiset(w[..p]) + multiset{w[p]} + multiset(w[p + 1..]);
  }

  lemma ThreeOccurrences(w: seq<nat>, a: nat, b: nat, c: nat)
    requires a < b < c < |w| && w[a] == w[b] == w[c]
    ensures Count(w, w[a]) >= 3
  {
    CountSplit(w, b, w[a]);
    assert w[..b][a] == w[a];
    assert w[b + 1..][c - b - 1] == w[a];
  }

  /** In a DOW, the other position holding the same letter as position p. */
  function Mate(w: seq<nat>, p: nat): (q: nat)
    requires IsDow(w) && p < |w|
    ensures q < |w| && q != p && w[q] == w[p]
    ensures forall j :: 0 <= j < |w| && j != p && w[j] == w[p] ==> j == q
  {
    CountSplit(w, p, w[p]);
    var q :=
      if w[p] in w[p + 1..] then p + 1 + IndexOf(w[p + 1..], w[p])
      else IndexOf(w[..p], w[p]);
    assert w[q] == w[p];
    assert forall j :: 0 <= j < |w| && j != p && j != q && w[j] == w[p] ==> false by {
      forall j | 0 <= j < |w| && j != p && j != q && w[j] == w[p] ensures false {
        if j < p && q < p { ThreeOccurrences(w, if j < q then j else q, if j < q then q else j, p); }
        else if j < p { ThreeOccurrences(w, j, p, q); }
        else if q < p { assert false; }
        else { ThreeOccurrences(w, p, if j < q then j else q, if j < q then q else j); }
      }
    }
    q
  }

  /**
   * The canonical form: each letter is replaced by 1 + its rank among the
   * distinct letters in first-occurrence order.
   */
  function Canon(w: seq<nat>): (r: seq<nat>)
    ensures |r| == |w|
  {
    seq(|w|, i requires 0 <= i < |w| => IndexOf(Dedup(w), w[i]) + 1)
  }

  /** The canonical form has the same pattern of equal letters as w, with labels in 1..|Dedup(w)|. */
  lemma CanonPairs(w: seq<nat>)
    ensures SamePattern(Canon(w), w) && SamePattern(w, Canon(w))
    ensures forall i :: 0 <= i < |w| ==> 1 <= Canon(w)[i] <= |Dedup(w)|
  {
    var d := Dedup(w);
    DedupSpec(w);
    forall i | 0 <= i < |w| ensures IndexOf(d, w[i]) < |d| {
      assert w[i] in d;
    }
    forall i, j | 0 <= i < |w| && 0 <= j < |w| ensures Canon(w)[i] == Canon(w)[j] <==> w[i] == w[j] {
      var a, b := IndexOf(d, w[i]), IndexOf(d, w[j]);
      assert d[a] == w[i] && d[b] == w[j];
    }
  }

  /** The label of position i: one more than the number of distinct letters before the first occurrence of w[i]. */
  lemma CanonAt(w: seq<nat>, i: nat)
    requires i < |w|
    ensures IndexOf(w, w[i]) < |w|
    ensures Canon(w)[i] == 1 + |Dedup(w[..IndexOf(w, w[i])])|
  {
    var p := IndexOf(w, w[i]);
    FirstOccurrenceRank(w, p);
  }

  lemma PatternSeen(u: seq<nat>, v: seq<nat>, k: nat)
    requires SamePattern(u, v) && k < |u|
    ensures u[k] in u[..k] <==> v[k] in v[..k]
  {
    if u[k] in u[..k] {
      var j :| 0 <= j < k && u[..k][j] == u[k];
      assert v[..k][j] == v[k];
    }
    if v[k] in v[..k] {
      var j :| 0 <= j < k && v[..k][j] == v[k];
      assert u[..k][j] == u[k];
    }
  }

  /** Position-wise: equal letters in u exactly where there are equal letters in v, so first occurrences match. */
  lemma PatternIndexOf(u: seq<nat>, v: seq<nat>, i: nat)
    requires SamePattern(u, v) && i < |u|
    ensures IndexOf(u, u[i]) == IndexOf(v, v[i])
  {
    var p := IndexOf(u, u[i]);
    assert v[p] == v[i];
    forall k | 0 <= k < p ensures v[k] != v[i] {
      assert u[..p][k] == u[k];
    }
    IndexOfUnique(v, v[i], p);
  }

  lemma {:induction false} PatternDedupLength(u: seq<nat>, v: seq<nat>, k: nat)
    requires SamePattern(u, v) && k <= |u|
    ensures |Dedup(u[..k])| == |Dedup(v[..k])|
  {
    if k > 0 {
      PatternDedupLength(u, v, k - 1);
      PatternSeen(u, v, k - 1);
      DedupLengthStep(u, v, k - 1);
    }
  }

  lemma DedupLengthStep(u: seq<nat>, v: seq<nat>, k: nat)
    requires k < |u| && k < |v| && |Dedup(u[..k])| == |Dedup(v[..k])|
    requires u[k] in u[..k] <==> v[k] in v[..k]
    ensures |Dedup(u[..k + 1])| == |Dedup(v[..k + 1])|
  {
    DedupPrefixLength(u, k);
    DedupPrefixLength(v, k);
  }

  /** The canonical form depends only on the pattern of equal letters. */
  lemma CanonPattern(u: seq<nat>, v: seq<nat>)
    requires SamePattern(u, v)
    ensures Canon(u) == Canon(v)
  {
    forall i | 0 <= i < |u| ensures Canon(u)[i] == Canon(v)[i] {
      CanonAt(u, i);
      CanonAt(v, i);
      PatternIndexOf(u, v, i);
      PatternDedupLength(u, v, IndexOf(u, u[i]));
    }
  }

  /** Relabelling twice is relabelling once. */
  lemma CanonIdempotent(w: seq<nat>)
    ensures Canon(Canon(w)) == Canon(w)
  {
    CanonPairs(w);
    CanonPattern(Canon(w), w);
  }

  /** Position p of w is a first occurrence and c labels it one more than the number of distinct letters before it. */
  predicate FirstLabel(c: seq<nat>, w: seq<nat>, p: nat)
    requires p < |c| == |w|
  {
    w[p] !in w[..p] ==> c[p] == 1 + |Dedup(w[..p])|
  }

  lemma IotaSnoc(m: nat)
    ensures Iota(m) + [m + 1] == Iota(m + 1)
  {
  }

  /**
   * A relabelling c of w that gives each first occurrence the label one more than the
   * number of distinct letters before it has the distinct labels 1, 2, ... in order.
   */
  lemma {:induction false} FirstOccurrenceLabels(c: seq<nat>, w: seq<nat>, k: nat)
    requires SamePattern(c, w) && k <= |w|
    requires forall p :: 0 <= p < |w| ==> FirstLabel(c, w, p)
    ensures Dedup(c[..k]) == Iota(|Dedup(w[..k])|)
  {
    if k > 0 {
      FirstOccurrenceLabels(c, w, k - 1);
      PatternSeen(c, w, k - 1);
      assert FirstLabel(c, w, k - 1);
      LabelStep(c, w, k - 1);
    }
  }

  /** One more position: a repeat adds no label, a first occurrence adds the next one. */
  lemma LabelStep(c: seq<nat>, w: seq<nat>, k: nat)
    requires k < |c| == |w|
    requires Dedup(c[..k]) == Iota(|Dedup(w[..k])|)
    requires c[k] in c[..k] <==> w[k] in w[..k]
    requires w[k] !in w[..k] ==> c[k] == 1 + |Dedup(w[..k])|
    ensures Dedup(c[..k + 1]) == Iota(|Dedup(w[..k + 1])|)
  {
    DedupPrefixLength(c, k);
    DedupPrefixLength(w, k);
    IotaSnoc(|Dedup(w[..k])|);
  }

  /** The distinct labels of the canonical form, in first-occurrence order, are exactly 1, 2, ..., one per letter. */
  lemma CanonLetters(w: seq<nat>)
    ensures Dedup(Canon(w)) == Iota(|Dedup(w)|)
  {
    var c := Canon(w);
    CanonPairs(w);
    forall p | 0 <= p < |w| ensures FirstLabel(c, w, p) {
      if w[p] !in w[..p] {
        IndexOfUnique(w, w[p], p);
        CanonAt(w, p);
      }
    }
    FirstOccurrenceLabels(c, w, |w|);
    assert w[..|w|] == w;
    assert c[..|w|] == c;
  }

  /** Counting one letter of u and its counterpart in v, when they occupy the same positions. */
  lemma {:induction false} CountMatch(u: seq<nat>, v: seq<nat>, x: nat, y: nat)
    requires |u| == |v|
    requires forall j :: 0 <= j < |u| ==> (u[j] == x <==> v[j] == y)
    ensures Count(u, x) == Count(v, y)
  {
    if u != [] {
      var n := |u| - 1;
      CountMatch(u[..n], v[..n], x, y);
      assert u == u[..n] + [u[n]];
      assert v == v[..n] + [v[n]];
      assert multiset(u) == multiset(u[..n]) + multiset{u[n]};
      assert multiset(v) == multiset(v[..n]) + multiset{v[n]};
    }
  }

  lemma PatternDow(u: seq<nat>, v: seq<nat>)
    requires SamePattern(u, v)
    ensures IsDow(u) <==> IsDow(v)
  {
    forall i | 0 <= i < |u| ensures Count(u, u[i]) == Count(v, v[i]) {
      CountMatch(u, v, u[i], v[i]);
    }
  }

  /** A DOW and its canonical form: a DOW with the pairs numbered 1, ..., |w|/2 by first occurrence. */
  lemma CanonDow(w: seq<nat>)
    ensures IsDow(Canon(w)) <==> IsDow(w)
    ensures IsDow(w) ==> Dedup(Canon(w)) == Iota(|w| / 2)
  {
    CanonPairs(w);
    PatternDow(w, Canon(w));
    CanonLetters(w);
    if IsDow(w) {
      DowLength(w);
    }
  }

  /** The form every word a step produces has: a DOW labelled 1, 2, .. in order of first occurrence. */
  predicate Canonical(u: seq<nat>)
  {
    IsDow(u) && Canon(u) == u
  }

  lemma CanonicalOf(u: seq<nat>)
    requires IsDow(u)
    ensures Canonical(Canon(u))
  {
    CanonDow(u);
    CanonIdempotent(u);
  }

  /** The letters of w that are not in D, in their original order. */
  function Keep(w: seq<nat>, D: set<nat>): (r: seq<nat>)
    ensures |r| <= |w|
  {
    if w == [] then []
    else Keep(w[..|w| - 1], D) + if w[|w| - 1] in D then [] else [w[|w| - 1]]
  }

  /** Keep removes every occurrence of the letters in D and keeps every occurrence of the others. */
  lemma {:induction false} KeepCount(w: seq<nat>, D: set<nat>, x: nat)
    ensures Count(Keep(w, D), x) == if x in D then 0 else Count(w, x)
  {
    if w != [] {
      var v, y := w[..|w| - 1], w[|w| - 1];
      assert w == v + [y];
      KeepCount(v, D, x);
      assert multiset(w) == multiset(v) + multiset{y};
      var tail := if y in D then [] else [y];
      assert multiset(Keep(w, D)) == multiset(Keep(v, D)) + multiset(tail);
    }
  }

  lemma KeepMember(w: seq<nat>, D: set<nat>, x: nat)
    ensures x in Keep(w, D) <==> x in w && x !in D
  {
    KeepCount(w, D, x);
    assert x in Keep(w, D) <==> x in multiset(Keep(w, D));
    assert x in w <==> x in multiset(w);
  }

  /** Removing whole letters from a DOW leaves a DOW. */
  lemma KeepDow(w: seq<nat>, D: set<nat>)
    requires IsDow(w)
    ensures IsDow(Keep(w, D))
  {
    var r := Keep(w, D);
    forall i | 0 <= i < |r| ensures Count(r, r[i]) == 2 {
      KeepMember(w, D, r[i]);
      KeepCount(w, D, r[i]);
      var j := IndexOf(w, r[i]);
    }
  }

  /** Removing one letter removes exactly its occurrences. */
  lemma {:induction false} KeepOneLength(w: seq<nat>, x: nat)
    ensures |Keep(w, {x})| == |w| - Count(w, x)
  {
    if w != [] {
      var v, y := w[..|w| - 1], w[|w| - 1];
      assert w == v + [y];
      KeepOneLength(v, x);
      assert multiset(w) == multiset(v) + multiset{y};
    }
  }

  /** Removing a set that holds x removes at least the occurrences of x. */
  lemma {:induction false} KeepShorter(w: seq<nat>, D: set<nat>, x: nat)
    requires x in D
    ensures |Keep(w, D)| + Count(w, x) <= |w|
  {
    if w != [] {
      var v, y := w[..|w| - 1], w[|w| - 1];
      assert w == v + [y];
      KeepShorter(v, D, x);
      assert multiset(w) == multiset(v) + multiset{y};
    }
  }

  /** Keep preserves the relative order: it is the subsequence of the positions whose letter is not in D. */
  lemma {:induction false} KeepPrefix(w: seq<nat>, D: set<nat>, k: nat)
    requires k < |w|
    ensures Keep(w[..k + 1], D) == Keep(w[..k], D) + if w[k] in D then [] else [w[k]]
  {
    PrefixSnoc(w, k);
    assert w[..k + 1][..k] == w[..k];
  }

  lemma {:induction false} ReverseMultiset(w: seq<nat>)
    ensures multiset(Reverse(w)) == multiset(w)
  {
    if w != [] {
      var v := w[1..];
      ReverseMultiset(v);
      assert w == [w[0]] + v;
      assert Reverse(w) == Reverse(v) + [w[0]];
    }
  }

  lemma ReverseDow(w: seq<nat>)
    requires IsDow(w)
    ensures IsDow(Reverse(w))
  {
    ReverseMultiset(w);
    var r := Reverse(w);
    forall i | 0 <= i < |r| ensures Count(r, r[i]) == 2 {
      assert r[i] == w[|w| - 1 - i];
    }
  }

  /** The position of the first occurrence of a letter occurring twice. */
  function FirstOf(w: seq<nat>, x: nat): (o1: nat)
    requires Count(w, x) == 2
    ensures o1 < |w| && w[o1] == x && x !in w[..o1]
  {
    assert x in multiset(w);
    IndexOf(w, x)
  }

  /** The position of the second occurrence of a letter occurring twice. */
  function SecondOf(w: seq<nat>, x: nat): (o2: nat)
    requires Count(w, x) == 2
    ensures FirstOf(w, x) < o2 < |w| && w[o2] == x
  {
    var o1 := FirstOf(w, x);
    CountSplit(w, o1, x);
    assert Count(w[..o1], x) == 0;
    assert x in multiset(w[o1 + 1..]);
    o1 + 1 + IndexOf(w[o1 + 1..], x)
  }

  /** Between and after the two occurrences the letter does not occur. */
  lemma SecondOfSpec(w: seq<nat>, x: nat)
    requires Count(w, x) == 2
    ensures x !in w[FirstOf(w, x) + 1..SecondOf(w, x)] && x !in w[SecondOf(w, x) + 1..]
  {
    var o1 := FirstOf(w, x);
    CountSplit(w, o1, x);
    assert Count(w[..o1], x) == 0;
    var t := w[o1 + 1..];
    var k := IndexOf(t, x);
    CountSplit(t, k, x);
    assert Count(t[k + 1..], x) == 0 by {
      assert Count(t[..k], x) == 0 by {
        assert x !in multiset(t[..k]);
      }
    }
    assert t[..k] == w[o1 + 1..o1 + 1 + k];
    assert t[k + 1..] == w[o1 + 1 + k + 1..];
    assert x !in multiset(t[k + 1..]);
  }

  /** The positions whose letter first occurs before i carry their canonical label. */
  predicate LabelledBelow(s: seq<int>, w: seq<nat>, i: nat)
    requires |s| == |w|
  {
    forall p :: 0 <= p < |w| && IndexOf(w, w[p]) < i ==> s[p] == Canon(w)[p]
  }

  /** In a DOW, position i is a first occurrence exactly when its mate lies to its right; its label is then the next one. */
  lemma RelabelFirst(w: seq<nat>, i: nat)
    requires IsDow(w) && i < |w|
    ensures w[i] !in w[..i] <==> Mate(w, i) > i
    ensures w[i] !in w[..i] ==> IndexOf(w, w[i]) == i && Canon(w)[i] == 1 + |Dedup(w[..i])|
  {
    var m := Mate(w, i);
    if m < i {
      assert w[..i][m] == w[i];
    }
    if w[i] in w[..i] {
      var k :| 0 <= k < i && w[..i][k] == w[i];
      assert k == m;
    } else {
      IndexOfUnique(w, w[i], i);
      CanonAt(w, i);
    }
  }

  /** A later position with the same letter is the mate of a first occurrence. */
  lemma RelabelPair(w: seq<nat>, i: nat, j: nat)
    requires IsDow(w) && i < j < |w| && w[i] == w[j]
    ensures j == Mate(w, i) && w[i] !in w[..i]
  {
    RelabelFirst(w, i);
  }

  /** Writing the pair found at (i, j) keeps the positions already labelled and labels the pair. */
  lemma RelabelWrite(s: seq<nat>, w: seq<nat>, i: nat, j: nat, v: nat)
    requires IsDow(w) && |s| == |w| && i < j < |w| && w[i] == w[j] && w[i] !in w[..i]
    requires LabelledBelow(s, w, i)
    requires v == 1 + |Dedup(w[..i])|
    ensures LabelledBelow(s[i := v][j := v], w, i)
    ensures v == Canon(w)[i] == Canon(w)[j]
  {
    IndexOfUnique(w, w[i], i);
    RelabelFirst(w, i);
    CanonPairs(w);
  }

  /** After the inner loop, every position whose letter first occurs at i is labelled as well. */
  lemma RelabelAdvance(s: seq<nat>, w: seq<nat>, i: nat)
    requires IsDow(w) && |s| == |w| && i < |w|
    requires LabelledBelow(s, w, i)
    requires w[i] !in w[..i] ==> s[i] == Canon(w)[i] && s[Mate(w, i)] == Canon(w)[Mate(w, i)]
    ensures LabelledBelow(s, w, i + 1)
  {
    forall p | 0 <= p < |w| && IndexOf(w, w[p]) == i ensures s[p] == Canon(w)[p] {
      IndexOfUnique(w, w[i], i);
    }
  }

  lemma RelabelDone(s: seq<nat>, w: seq<nat>)
    requires |s| == |w| && LabelledBelow(s, w, |w|)
    ensures s == Canon(w)
  {
    forall p | 0 <= p < |w| ensures s[p] == Canon(w)[p] {
      var q := IndexOf(w, w[p]);
      assert w[p] in w;
    }
  }

  /** Every letter of a list of subwords. */
  function Letters(seqs: seq<seq<nat>>): set<nat>
  {
    set k, x | 0 <= k < |seqs| && x in seqs[k] :: x
  }

  /** Length of the longest word of a list. */
  function MaxLen(ws: seq<seq<nat>>): nat
  {
    if ws == [] then 0
    else
      var m := MaxLen(ws[..|ws| - 1]);
      if |ws[|ws| - 1]| > m then |ws[|ws| - 1]| else m
  }

  lemma {:induction false} MaxLenSpec(ws: seq<seq<nat>>)
    ensures forall k :: 0 <= k < |ws| ==> |ws[k]| <= MaxLen(ws)
    ensures ws != [] ==> exists k :: 0 <= k < |ws| && |ws[k]| == MaxLen(ws)
  {
    if ws != [] {
      var v := ws[..|ws| - 1];
      MaxLenSpec(v);
      forall k | 0 <= k < |ws| ensures |ws[k]| <= MaxLen(ws) {
        if k < |v| {
          assert ws[k] == v[k];
        }
      }
      if |v| > 0 && |ws[|ws| - 1]| <= MaxLen(v) {
        var k :| 0 <= k < |v| && |v[k]| == MaxLen(v);
        assert ws[k] == v[k];
      }
    }
  }

  lemma {:induction false} MaxLenLeast(ws: seq<seq<nat>>, bound: nat)
    requires forall k :: 0 <= k < |ws| ==> |ws[k]| <= bound
    ensures MaxLen(ws) <= bound
  {
    if ws != [] {
      var v := ws[..|ws| - 1];
      assert forall k :: 0 <= k < |v| ==> v[k] == ws[k];
      MaxLenLeast(v, bound);
    }
  }

  /** Keep works letter by letter, so it distributes over concatenation. */
  lemma {:induction false} KeepAppend(u: seq<nat>, v: seq<nat>, D: set<nat>)
    ensures Keep(u + v, D) == Keep(u, D) + Keep(v, D)
  {
    if v == [] {
      assert u + v == u;
    } else {
      var v0, y := v[..|v| - 1], v[|v| - 1];
      assert (u + v)[..|u + v| - 1] == u + v0;
      KeepAppend(u, v0, D);
    }
  }

  /** A word none of whose letters is in D is kept whole. */
  lemma {:induction false} KeepFree(u: seq<nat>, D: set<nat>)
    requires forall i :: 0 <= i < |u| ==> u[i] !in D
    ensures Keep(u, D) == u
  {
    if u != [] {
      var u0 := u[..|u| - 1];
      assert forall i :: 0 <= i < |u0| ==> u0[i] == u[i];
      KeepFree(u0, D);
    }
  }

  /** Removing A and then B is removing A + B. */
  lemma {:induction false} KeepKeep(w: seq<nat>, A: set<nat>, B: set<nat>)
    ensures Keep(Keep(w, A), B) == Keep(w, A + B)
  {
    if w != [] {
      var v, y := w[..|w| - 1], w[|w| - 1];
      KeepKeep(v, A, B);
      var tail := if y in A then [] else [y];
      KeepAppend(Keep(v, A), tail, B);
    }
  }

  lemma LettersSnoc(seqs: seq<seq<nat>>, s: seq<nat>)
    ensures Letters(seqs + [s]) == Letters(seqs) + set x | x in s
  {
    var ss := seqs + [s];
    forall x | x in Letters(ss) ensures x in Letters(seqs) + set y | y in s {
      var k :| 0 <= k < |ss| && x in ss[k];
      if k < |seqs| {
        assert x in seqs[k];
      }
    }
    forall x | x in Letters(seqs) ensures x in Letters(ss) {
      var k :| 0 <= k < |seqs| && x in seqs[k];
      assert x in ss[k];
    }
    forall x | x in s ensures x in Letters(ss) {
      assert x in ss[|seqs|];
    }
  }

  /** Deleting a later copy of an element that occurs earlier does not change Dedup. */
  lemma {:induction false} DedupRemoveLater<T>(s: seq<T>, j: nat)
    requires j < |s| && s[j] in s[..j]
    ensures Dedup(s[..j] + s[j + 1..]) == Dedup(s)
  {
    var t := s[..j] + s[j + 1..];
    var s0, y := s[..|s| - 1], s[|s| - 1];
    if j == |s| - 1 {
      assert t == s0;
      DedupMember(s0, y);
    } else {
      var t0 := s0[..j] + s0[j + 1..];
      assert s0[..j] == s[..j];
      DedupRemoveLater(s0, j);
      assert t == t0 + [y];
      DedupSnoc(t0, y);
      DedupMember(t0, y);
      DedupMember(s0, y);
      RemoveLaterMember(s0, j, y);
    }
  }

  lemma RemoveLaterMember<T>(s: seq<T>, j: nat, x: T)
    requires j < |s| && s[j] in s[..j]
    ensures x in s[..j] + s[j + 1..] <==> x in s
  {
    var t := s[..j] + s[j + 1..];
    assert s == s[..j] + [s[j]] + s[j + 1..];
    assert multiset(s) == multiset(t) + multiset{s[j]};
    assert s[j] in multiset(t) by {
      assert s[j] in multiset(s[..j]);
    }
    assert x in s <==> x in multiset(s);
    assert x in t <==> x in multiset(t);
  }

  lemma {:induction false} DedupNoDup<T>(s: seq<T>)
    requires NoDup(s)
    ensures Dedup(s) == s
  {
    if s != [] {
      var s0 := s[..|s| - 1];
      DedupNoDup(s0);
      DedupMember(s0, s[|s| - 1]);
    }
  }

  /** Being a DOW depends only on the multiset of letters. */
  lemma DowMultiset(u: seq<nat>, v: seq<nat>)
    requires multiset(u) == multiset(v)
    ensures IsDow(u) <==> IsDow(v)
  {
    forall i | 0 <= i < |u| ensures u[i] in v {
      assert u[i] in multiset(u);
    }
    forall i | 0 <= i < |v| ensures v[i] in u {
      assert v[i] in multiset(v);
    }
  }

  lemma RotateDow(s: seq<nat>, k: nat)
    requires IsDow(s) && k <= |s|
    ensures IsDow(RotateLeft(s, k))
  {
    assert s == s[..k] + s[k..];
    assert multiset(RotateLeft(s, k)) == multiset(s);
    var r := RotateLeft(s, k);
    forall i | 0 <= i < |r| ensures Count(r, r[i]) == 2 {
      var j := if i + k < |s| then i + k else i + k - |s|;
      assert r[i] == s[j];
    }
  }
}
