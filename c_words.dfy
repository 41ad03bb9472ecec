/**
 * The word primitives of the C implementation: the alphabet of a word, the
 * double occurrence test, relabelling, removal of one letter pair and the
 * relabelled reversal. Each C routine fills a freshly allocated buffer in a
 * loop; here the buffer is a local array whose contents are returned.
 */
module CWords {
  import opened Dow

  /** get_letters: the distinct letters in first-occurrence order, then the zeros left by calloc. */
  method GetLetters(word: seq<nat>) returns (letters: seq<nat>)
    ensures letters == Dedup(word) + Zeros(|word| - |Dedup(word)|)
  {
    var a := new nat[|word|](_ => 0);
    var ctr := 0;
    for i := 0 to |word|
      invariant ctr == |Dedup(word[..i])| <= i
      invariant a[..ctr] == Dedup(word[..i])
      invariant forall k :: ctr <= k < a.Length ==> a[k] == 0
    {
      var notInAlphabet := true;
      for j := 0 to ctr
        invariant notInAlphabet <==> word[i] !in a[..j]
      {
        if word[i] == a[j] {
          notInAlphabet := false;
        }
      }
      DedupPrefixLength(word, i);
      DedupMember(word[..i], word[i]);
      if notInAlphabet {
        a[ctr] := word[i];
        ctr := ctr + 1;
      }
    }
    assert word[..|word|] == word;
    assert a[..] == a[..ctr] + a[ctr..];
    letters := a[..];
  }

  /** The letter table that is_double_occurrence inspects. */
  function LetterTable(w: seq<nat>): (r: seq<nat>)
    ensures |r| == |w|
  {
    Dedup(w) + Zeros(|w| - |Dedup(w)|)
  }

  /** What is_double_occurrence checks: each of the first |w|/2 table entries occurs exactly twice in w. */
  predicate DoubleOccurrenceAsWritten(w: seq<nat>)
  {
    forall i :: 0 <= i < |w| / 2 ==> Count(w, LetterTable(w)[i]) == 2
  }

  /** is_double_occurrence, as written. */
  method IsDoubleOccurrence(word: seq<nat>) returns (ok: bool)
    ensures ok == DoubleOccurrenceAsWritten(word)
  {
    var letters := GetLetters(word);
    assert letters == LetterTable(word);
    for i := 0 to |word| / 2
      invariant forall k :: 0 <= k < i ==> Count(word, letters[k]) == 2
    {
      var ltrCtr := 0;
      for j := 0 to |word|
        invariant ltrCtr == Count(word[..j], letters[i])
      {
        PrefixSnoc(word, j);
        if letters[i] == word[j] {
          ltrCtr := ltrCtr + 1;
        }
      }
      assert word[..|word|] == word;
      if ltrCtr != 2 {
        return false;
      }
    }
    return true;
  }

  /** Every DOW, the empty word included, passes the test. */
  lemma DowAccepted(w: seq<nat>)
    requires IsDow(w)
    ensures DoubleOccurrenceAsWritten(w)
  {
    DowLength(w);
    DedupSpec(w);
    var d := Dedup(w);
    forall i | 0 <= i < |w| / 2 ensures Count(w, LetterTable(w)[i]) == 2 {
      assert LetterTable(w)[i] == d[i];
      DedupMember(w, d[i]);
      var p := IndexOf(w, d[i]);
    }
  }

  /** For words of even length the test is exactly the DOW property. */
  lemma EvenAccepted(w: seq<nat>)
    requires |w| % 2 == 0 && DoubleOccurrenceAsWritten(w)
    ensures IsDow(w)
  {
    var d, n := Dedup(w), |w| / 2;
    DedupCountsSum(w);
    DedupSpec(w);
    if |d| < n {
      forall k | 0 <= k < |d| ensures Count(w, d[k]) == 2 {
        assert LetterTable(w)[k] == d[k];
      }
      SumCountsConst(d, w, 2);
      assert false;
    }
    forall k | 0 <= k < n ensures Count(w, d[..n][k]) == 2 {
      assert LetterTable(w)[k] == d[k];
    }
    SumCountsConst(d[..n], w, 2);
    if |d| > n {
      SumCountsPrefix(d, w, n);
      DedupMember(w, d[n]);
      assert false;
    }
    forall i | 0 <= i < |w| ensures Count(w, w[i]) == 2 {
      DedupMember(w, w[i]);
      var k := IndexOf(d, w[i]);
      assert LetterTable(w)[k] == d[k];
    }
  }

  /** An odd word passes the test: only the first |w|/2 letters are counted. */
  lemma OddWordAccepted()
    ensures DoubleOccurrenceAsWritten([1, 1, 2]) && !IsDow([1, 1, 2])
  {
    var w: seq<nat> := [1, 1, 2];
    assert w[..2] == [1, 1];
    DedupPrefixLength(w, 0);
    DedupPrefixLength(w, 1);
    DedupPrefixLength(w, 2);
    assert w[..0] == [];
    assert w[..3] == w;
    assert LetterTable(w)[0] == 1;
    assert multiset(w)[1] == 2;
    assert multiset(w)[2] == 1;
  }

  /** The evidently intended test: even length and is_double_occurrence. */
  method CheckDow(word: seq<nat>) returns (ok: bool)
    ensures ok <==> IsDow(word)
  {
    if |word| % 2 == 1 {
      if IsDow(word) {
        DowLength(word);
      }
      return false;
    }
    ok := IsDoubleOccurrence(word);
    if ok {
      EvenAccepted(word);
    } else if IsDow(word) {
      DowAccepted(word);
    }
  }

  /**
   * relabel: for each position i whose letter recurs at a later j, both get the next
   * new label. On a DOW this is the canonical form.
   */
  method Relabel(word: seq<nat>) returns (r: seq<nat>)
    requires IsDow(word)
    ensures r == Canon(word)
  {
    var a := new nat[|word|];
    var newLtr := 1;
    for i := 0 to |word|
      invariant newLtr == 1 + |Dedup(word[..i])|
      invariant LabelledBelow(a[..], word, i)
    {
      ghost var first := word[i] !in word[..i];
      ghost var m := Mate(word, i);
      RelabelFirst(word, i);
      for j := i + 1 to |word|
        invariant newLtr == 1 + |Dedup(word[..i])| + if first && m < j then 1 else 0
        invariant LabelledBelow(a[..], word, i)
        invariant first && m < j ==> a[i] == Canon(word)[i] && a[m] == Canon(word)[m]
      {
        if word[i] == word[j] {
          ghost var before := a[..];
          a[i] := newLtr;
          a[j] := newLtr;
          RelabelPair(word, i, j);
          assert a[..] == before[i := newLtr][j := newLtr];
          RelabelWrite(before, word, i, j, newLtr);
          newLtr := newLtr + 1;
        }
      }
      DedupPrefixLength(word, i);
      RelabelAdvance(a[..], word, i);
    }
    r := a[..];
    RelabelDone(r, word);
  }

  /** remove_ltr: the prefix before the first occurrence, the segment between the occurrences reversed, then the suffix. */
  function RemovePairReversed(w: seq<nat>, x: nat): (r: seq<nat>)
    requires Count(w, x) == 2
    ensures |r| == |w| - 2
  {
    var o1 := FirstOf(w, x);
    var o2 := SecondOf(w, x);
    w[..o1] + Reverse(w[o1 + 1..o2]) + w[o2 + 1..]
  }

  /** remove_ltr deletes the two occurrences of x and nothing else. */
  lemma RemovePairCounts(w: seq<nat>, x: nat)
    requires Count(w, x) == 2
    ensures multiset(RemovePairReversed(w, x)) == multiset(w) - multiset{x, x}
  {
    var o1 := FirstOf(w, x);
    var o2 := SecondOf(w, x);
    var pre, mid, post := w[..o1], w[o1 + 1..o2], w[o2 + 1..];
    assert w == pre + [x] + mid + [x] + post;
    SegmentsMultiset(pre, mid, post, x);
  }

  /** Cutting two copies of x out of a word and reversing the segment between them takes away exactly those two copies. */
  lemma SegmentsMultiset(pre: seq<nat>, mid: seq<nat>, post: seq<nat>, x: nat)
    ensures multiset(pre + Reverse(mid) + post) == multiset(pre + [x] + mid + [x] + post) - multiset{x, x}
  {
    ReverseMultiset(mid);
  }

  /** Removing a letter from a DOW leaves a DOW. */
  lemma RemovePairDow(w: seq<nat>, x: nat)
    requires IsDow(w) && Count(w, x) == 2
    ensures IsDow(RemovePairReversed(w, x))
  {
    var r := RemovePairReversed(w, x);
    RemovePairCounts(w, x);
    forall i | 0 <= i < |r| ensures Count(r, r[i]) == 2 {
      var y := r[i];
      assert y in multiset(r);
      assert y != x;
      assert y in multiset(w);
      var k :| 0 <= k < |w| && w[k] == y;
    }
  }

  /** remove_ltr: the three copying loops of the source, each in a method of its own. */
  method RemoveLtr(word: seq<nat>, letter: nat) returns (r: seq<nat>)
    requires Count(word, letter) == 2
    ensures r == RemovePairReversed(word, letter)
  {
    var a := new nat[|word| - 2];
    var n := CopyBefore(word, letter, a);
    var i := CopyAfter(word, letter, a);
    CopyBetweenReversed(word, letter, a, i - 1, n);
    r := a[..];
    RemovePairAt(word, letter, r);
  }

  /** The first loop of remove_ltr: the letters before the first occurrence, in order. */
  method CopyBefore(word: seq<nat>, letter: nat, a: array<nat>) returns (n: nat)
    requires Count(word, letter) == 2 && a.Length == |word| - 2
    modifies a
    ensures n == FirstOf(word, letter) < SecondOf(word, letter)
    ensures forall k :: 0 <= k < n ==> a[k] == word[k]
    ensures forall k :: n <= k < a.Length ==> a[k] == old(a[k])
  {
    var o1 := FirstOf(word, letter);
    SecondOfSpec(word, letter);
    var i := 0;
    n := 0;
    while word[i] != letter
      invariant i <= o1 && n == i
      invariant forall k :: 0 <= k < n ==> a[k] == word[k]
      invariant forall k :: n <= k < a.Length ==> a[k] == old(a[k])
      decreases o1 - i
    {
      assert word[..o1][i] == word[i];
      a[n] := word[i];
      n, i := n + 1, i + 1;
    }
  }

  /** The second loop of remove_ltr: the letters after the second occurrence, shifted left by two. */
  method CopyAfter(word: seq<nat>, letter: nat, a: array<nat>) returns (i: nat)
    requires Count(word, letter) == 2 && a.Length == |word| - 2
    modifies a
    ensures i == SecondOf(word, letter)
    ensures forall k :: i < k < |word| ==> a[k - 2] == word[k]
    ensures forall k :: 0 <= k < i - 1 ==> a[k] == old(a[k])
  {
    var o2 := SecondOf(word, letter);
    SecondOfSpec(word, letter);
    i := |word| - 1;
    while word[i] != letter
      invariant o2 <= i < |word|
      invariant forall k :: i < k < |word| ==> a[k - 2] == word[k]
      invariant forall k :: 0 <= k < i - 1 ==> a[k] == old(a[k])
      decreases i
    {
      assert word[o2 + 1..][i - o2 - 1] == word[i];
      a[i - 2] := word[i];
      i := i - 1;
    }
  }

  /** The third loop of remove_ltr: the letters between the occurrences, read backwards from the second. */
  method CopyBetweenReversed(word: seq<nat>, letter: nat, a: array<nat>, i0: int, n0: nat)
    requires Count(word, letter) == 2 && a.Length == |word| - 2
    requires i0 == SecondOf(word, letter) - 1 && n0 == FirstOf(word, letter)
    modifies a
    ensures forall k :: n0 <= k <= i0 - 1 ==> a[k] == word[i0 - (k - n0)]
    ensures forall k :: 0 <= k < a.Length && !(n0 <= k <= i0 - 1) ==> a[k] == old(a[k])
  {
    var o1, o2 := FirstOf(word, letter), SecondOf(word, letter);
    SecondOfSpec(word, letter);
    var i, n := i0, n0;
    while word[i] != letter
      invariant o1 <= i < o2 && n == o1 + (o2 - 1 - i)
      invariant forall k :: o1 <= k < n ==> a[k] == word[o2 - 1 - (k - o1)]
      invariant forall k :: 0 <= k < a.Length && !(o1 <= k < n) ==> a[k] == old(a[k])
      decreases i
    {
      assert word[o1 + 1..o2][i - o1 - 1] == word[i];
      a[n] := word[i];
      n, i := n + 1, i - 1;
    }
  }

  /** A word that agrees position by position with the three segments of remove_ltr is its result. */
  lemma RemovePairAt(w: seq<nat>, x: nat, r: seq<nat>)
    requires Count(w, x) == 2 && |r| == |w| - 2 && SecondOf(w, x) < |w|
    requires forall k :: 0 <= k < FirstOf(w, x) ==> r[k] == w[k]
    requires forall k :: FirstOf(w, x) <= k < SecondOf(w, x) - 1 ==> r[k] == w[SecondOf(w, x) - 1 - (k - FirstOf(w, x))]
    requires forall k :: SecondOf(w, x) < k < |w| ==> r[k - 2] == w[k]
    ensures r == RemovePairReversed(w, x)
  {
    ThreeSegments(w, FirstOf(w, x), SecondOf(w, x), r);
  }

  /** The segments before o1, between o1 and o2 read backwards, and after o2. */
  lemma ThreeSegments(w: seq<nat>, o1: nat, o2: nat, r: seq<nat>)
    requires o1 < o2 < |w| && |r| == |w| - 2
    requires forall k :: 0 <= k < o1 ==> r[k] == w[k]
    requires forall k :: o1 <= k < o2 - 1 ==> r[k] == w[o2 - 1 - (k - o1)]
    requires forall k :: o2 < k < |w| ==> r[k - 2] == w[k]
    ensures r == w[..o1] + Reverse(w[o1 + 1..o2]) + w[o2 + 1..]
  {
    var pre, rev, post := w[..o1], Reverse(w[o1 + 1..o2]), w[o2 + 1..];
    var e := pre + rev + post;
    forall k | 0 <= k < |r| ensures r[k] == e[k] {
      if k < o1 {
        assert e[k] == pre[k];
      } else if k < o2 - 1 {
        assert e[k] == rev[k - o1];
      } else {
        assert e[k] == post[k - (o2 - 1)];
        assert r[(k + 2) - 2] == w[k + 2];
      }
    }
  }

  /** The segment between the two occurrences comes out reversed: on abcabc the removal of a gives cbbc, where an order-preserving removal would give bcbc. */
  lemma RemoveLtrReverses(a: nat, b: nat, c: nat)
    requires a != b && b != c && a != c
    ensures RemovePairReversed([a, b, c, a, b, c], a) == [c, b, b, c]
  {
    var w: seq<nat> := [a, b, c, a, b, c];
    assert w[..0] + Reverse(w[1..3]) + w[4..] == [c, b, b, c] by {
      assert w[1..3] == [b, c] && w[4..] == [b, c];
      assert Reverse([b, c]) == [c, b];
    }
    SampleOccurrences(a, b, c);
  }

  /** The two occurrences of a in abcabc are at positions 0 and 3. */
  lemma SampleOccurrences(a: nat, b: nat, c: nat)
    requires a != b && b != c && a != c
    ensures Count([a, b, c, a, b, c], a) == 2
    ensures FirstOf([a, b, c, a, b, c], a) == 0 && SecondOf([a, b, c, a, b, c], a) == 3
  {
    var w: seq<nat> := [a, b, c, a, b, c];
    assert Count(w, a) == 2 by {
      assert w == [a] + [b, c] + [a] + [b, c];
    }
    var t := w[1..];
    assert t == [b, c, a, b, c];
    assert IndexOf(t, a) == 2 by {
      assert t[..2] == [b, c];
      IndexOfUnique(t, a, 2);
    }
  }

  /** get_reverse: the reversed word, relabelled. */
  method GetReverse(word: seq<nat>) returns (r: seq<nat>)
    requires IsDow(word)
    ensures IsDow(r) && r == Canon(Reverse(word))
  {
    var a := new nat[|word|];
    for i := 0 to |word|
      invariant forall k :: 0 <= k < i ==> a[k] == word[|word| - 1 - k]
    {
      a[i] := word[|word| - 1 - i];
    }
    assert a[..] == Reverse(word);
    ReverseDow(word);
    r := Relabel(a[..]);
    CanonDow(Reverse(word));
  }
}
