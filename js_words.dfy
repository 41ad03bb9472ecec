/**
 * The word helpers of reductions.js. JavaScript arrays are sequences that the
 * methods build with push and cut with splice; reading an index outside an
 * array yields `undefined`, which At models as None.
 */
module JsWords {
  import opened Dow

  /** Reading s[i]: undefined (None) outside the array. */
  function At<T>(s: seq<T>, i: int): Option<T>
  {
    if 0 <= i < |s| then Some(s[i]) else None
  }

  /** equal: true exactly when both arrays have the same length and the same element at every index. */
  method Equal(left: seq<nat>, right: seq<nat>) returns (r: bool)
    ensures r <==> left == right
  {
    if |left| != |right| {
      return false;
    }
    for i := 0 to |left|
      invariant left[..i] == right[..i]
    {
      if left[i] != right[i] {
        assert left[..i + 1][i] != right[..i + 1][i];
        return false;
      }
      assert left[..i + 1] == left[..i] + [left[i]];
      assert right[..i + 1] == right[..i] + [right[i]];
    }
    assert left == left[..|left|] && right == right[..|right|];
    return true;
  }

  /** alpha: the distinct letters of the word in first-occurrence order. */
  method Alpha(word: seq<nat>) returns (alphabet: seq<nat>)
    ensures alphabet == Dedup(word)
  {
    alphabet := [];
    for i := 0 to |word|
      invariant alphabet == Dedup(word[..i])
    {
      var inAlphabet := false;
      for j := 0 to |alphabet|
        invariant inAlphabet <==> word[i] in alphabet[..j]
      {
        if alphabet[j] == word[i] {
          inAlphabet := true;
        }
        assert alphabet[..j + 1] == alphabet[..j] + [alphabet[j]];
      }
      assert alphabet[..|alphabet|] == alphabet;
      DedupPrefixLength(word, i);
      DedupMember(word[..i], word[i]);
      if !inAlphabet {
        alphabet := alphabet + [word[i]];
      }
    }
    assert word[..|word|] == word;
  }

  // ---------------------------------------------------------------------------
  // occurrences
  // ---------------------------------------------------------------------------

  /** The indices at which x occurs in w, in increasing order. */
  function Positions(w: seq<nat>, x: nat): seq<nat>
  {
    if w == [] then []
    else Positions(w[..|w| - 1], x) + if w[|w| - 1] == x then [|w| - 1] else []
  }

  /** Positions lists every index holding x, and only those, once each and in increasing order. */
  lemma PositionsSpec(w: seq<nat>, x: nat)
    ensures |Positions(w, x)| == Count(w, x)
    ensures forall k :: 0 <= k < |Positions(w, x)| ==> Positions(w, x)[k] < |w| && w[Positions(w, x)[k]] == x
    ensures forall k, l :: 0 <= k < l < |Positions(w, x)| ==> Positions(w, x)[k] < Positions(w, x)[l]
    ensures forall i :: 0 <= i < |w| && w[i] == x ==> i in Positions(w, x)
  {
    PositionsSound(w, x);
    PositionsComplete(w, x);
  }

  lemma {:induction false} PositionsSound(w: seq<nat>, x: nat)
    ensures |Positions(w, x)| == Count(w, x)
    ensures forall k :: 0 <= k < |Positions(w, x)| ==> Positions(w, x)[k] < |w| && w[Positions(w, x)[k]] == x
    ensures forall k, l :: 0 <= k < l < |Positions(w, x)| ==> Positions(w, x)[k] < Positions(w, x)[l]
  {
    if w != [] {
      var v, y := w[..|w| - 1], w[|w| - 1];
      assert w == v + [y];
      PositionsSound(v, x);
      assert multiset(w) == multiset(v) + multiset{y};
      var q := Positions(v, x);
      var p := q + if y == x then [|w| - 1] else [];
      assert Positions(w, x) == p;
      forall k | 0 <= k < |q| ensures p[k] == q[k] && q[k] < |v| && w[q[k]] == x {
        assert v[q[k]] == x;
      }
    }
  }

  lemma {:induction false} PositionsComplete(w: seq<nat>, x: nat)
    ensures forall i :: 0 <= i < |w| && w[i] == x ==> i in Positions(w, x)
  {
    if w != [] {
      var v, y := w[..|w| - 1], w[|w| - 1];
      PositionsComplete(v, x);
      var q := Positions(v, x);
      var p := q + if y == x then [|w| - 1] else [];
      assert Positions(w, x) == p;
      forall i | 0 <= i < |w| && w[i] == x ensures i in p {
        if i < |v| {
          assert v[i] == x;
          assert i in q;
        } else {
          assert p[|p| - 1] == i;
        }
      }
    }
  }

  /** The only indices of a letter occurring twice are its first and second occurrence. */
  lemma OnlyPositions(w: seq<nat>, x: nat, p: nat)
    requires Count(w, x) == 2 && p < |w| && w[p] == x
    ensures p == FirstOf(w, x) || p == SecondOf(w, x)
  {
    var o1, o2 := FirstOf(w, x), SecondOf(w, x);
    SecondOfSpec(w, x);
  }

  /** For a letter occurring twice, occurrences gives its two indices. */
  lemma PositionsPair(w: seq<nat>, x: nat)
    requires Count(w, x) == 2
    ensures Positions(w, x) == [FirstOf(w, x), SecondOf(w, x)]
  {
    PositionsSpec(w, x);
    var p := Positions(w, x);
    OnlyPositions(w, x, p[0]);
    OnlyPositions(w, x, p[1]);
  }

  /** occurrences: the indices of the letter in the word, collected with push. */
  method Occurrences(word: seq<nat>, letter: nat) returns (occs: seq<nat>)
    ensures occs == Positions(word, letter)
  {
    occs := [];
    for i := 0 to |word|
      invariant occs == Positions(word[..i], letter)
    {
      assert word[..i + 1][..i] == word[..i];
      if word[i] == letter {
        occs := occs + [i];
      }
    }
    assert word[..|word|] == word;
  }

  // ---------------------------------------------------------------------------
  // is_double_occurrence
  // ---------------------------------------------------------------------------

  predicate Ascending(s: seq<nat>)
  {
    forall i, j :: 0 <= i < j < |s| ==> s[i] <= s[j]
  }

  /** Inserting x in front of the first element not smaller than it. */
  function Insert(s: seq<nat>, x: nat): seq<nat>
  {
    if s == [] then [x]
    else if x <= s[0] then [x] + s
    else [s[0]] + Insert(s[1..], x)
  }

  /** The sorted copy that is_double_occurrence inspects (numeric order, see README). */
  function Sort(s: seq<nat>): seq<nat>
  {
    if s == [] then [] else Insert(Sort(s[..|s| - 1]), s[|s| - 1])
  }

  lemma AscendingCons(a: nat, r: seq<nat>)
    requires Ascending(r) && forall i :: 0 <= i < |r| ==> a <= r[i]
    ensures Ascending([a] + r)
  {
    var c := [a] + r;
    forall i, j | 0 <= i < j < |c| ensures c[i] <= c[j] {
      assert c[j] == r[j - 1];
      if i > 0 {
        assert c[i] == r[i - 1];
      }
    }
  }

  lemma {:induction false} InsertMultiset(s: seq<nat>, x: nat)
    ensures multiset(Insert(s, x)) == multiset(s) + multiset{x}
  {
    if s != [] && x > s[0] {
      InsertMultiset(s[1..], x);
      assert s == [s[0]] + s[1..];
    }
  }

  lemma {:induction false} InsertSpec(s: seq<nat>, x: nat)
    requires Ascending(s)
    ensures Ascending(Insert(s, x))
    ensures multiset(Insert(s, x)) == multiset(s) + multiset{x}
  {
    InsertMultiset(s, x);
    if s == [] {
    } else if x <= s[0] {
      AscendingCons(x, s);
    } else {
      var t := s[1..];
      assert Ascending(t);
      InsertSpec(t, x);
      var r := Insert(t, x);
      forall i | 0 <= i < |r| ensures s[0] <= r[i] {
        assert r[i] in multiset(r);
        if r[i] != x {
          assert r[i] in multiset(t);
          var k :| 0 <= k < |t| && t[k] == r[i];
          assert t[k] == s[k + 1];
        }
      }
      AscendingCons(s[0], r);
    }
  }

  lemma {:induction false} SortSpec(s: seq<nat>)
    ensures Ascending(Sort(s))
    ensures multiset(Sort(s)) == multiset(s)
  {
    if s != [] {
      var v := s[..|s| - 1];
      SortSpec(v);
      InsertSpec(Sort(v), s[|s| - 1]);
      assert s == v + [s[|s| - 1]];
    }
  }

  /**
   * What the loop of is_double_occurrence checks at j = 2i on the sorted copy: s[j]
   * equals s[j + 1] and differs from s[j - 1] (undefined when j is 0).
   */
  predicate PairAt(s: seq<nat>, i: nat)
    requires 2 * i + 1 < |s|
  {
    s[2 * i] == s[2 * i + 1] && At(s, 2 * i - 1) != Some(s[2 * i])
  }

  predicate PairedRuns(s: seq<nat>)
    requires |s| % 2 == 0
  {
    forall i :: 0 <= i < |s| / 2 ==> PairAt(s, i)
  }

  /** The checks at the later indices of s are the checks at the indices of s[2..], except at s[2]. */
  lemma RunsTail(s: seq<nat>)
    requires |s| % 2 == 0 && |s| >= 2
    ensures PairedRuns(s) <==> s[0] == s[1] && (|s| > 2 ==> s[2] != s[1]) && PairedRuns(s[2..])
  {
    var t := s[2..];
    forall i | 0 <= i < |t| / 2 ensures PairAt(s, i + 1) <==> PairAt(t, i) && (i == 0 ==> s[2] != s[1]) {
      assert t[2 * i] == s[2 * i + 2] && t[2 * i + 1] == s[2 * i + 3];
      if i > 0 {
        assert At(t, 2 * i - 1) == At(s, 2 * i + 1);
      }
    }
    if PairedRuns(s) {
      assert PairAt(s, 0);
      forall i | 0 <= i < |t| / 2 ensures PairAt(t, i) {
        assert PairAt(s, i + 1);
      }
      if |s| > 2 {
        assert PairAt(s, 1);
      }
    }
    if s[0] == s[1] && (|s| > 2 ==> s[2] != s[1]) && PairedRuns(t) {
      forall i | 0 <= i < |s| / 2 ensures PairAt(s, i) {
        if i > 0 {
          assert PairAt(t, i - 1);
        }
      }
    }
  }

  /** On an ascending word of even length, the paired-runs check succeeds exactly for DOWs. */
  lemma {:induction false} RunsDow(s: seq<nat>)
    requires Ascending(s) && |s| % 2 == 0
    ensures PairedRuns(s) <==> IsDow(s)
  {
    if s != [] {
      RunsTail(s);
      RunsDow(s[2..]);
      if s[0] == s[1] && (|s| > 2 ==> s[2] != s[1]) && IsDow(s[2..]) {
        PairThenDow(s);
      }
      if IsDow(s) {
        DowThenPair(s);
      }
    }
  }

  /** The multiset of an ascending word split after its first two letters. */
  lemma FirstPairSplit(s: seq<nat>)
    requires |s| >= 2
    ensures multiset(s) == multiset{s[0], s[1]} + multiset(s[2..])
  {
    assert s == [s[0], s[1]] + s[2..];
  }

  lemma PairThenDow(s: seq<nat>)
    requires Ascending(s) && |s| >= 2
    requires s[0] == s[1] && (|s| > 2 ==> s[2] != s[1]) && IsDow(s[2..])
    ensures IsDow(s)
  {
    var v, t := s[0], s[2..];
    FirstPairSplit(s);
    assert v !in multiset(t) by {
      forall k | 0 <= k < |t| ensures t[k] != v {
        assert s[2] <= s[k + 2];
      }
    }
    forall i | 0 <= i < |s| ensures Count(s, s[i]) == 2 {
      if i >= 2 {
        assert s[i] == t[i - 2];
        assert s[i] in multiset(t);
      }
    }
  }

  lemma DowThenPair(s: seq<nat>)
    requires Ascending(s) && |s| >= 2 && IsDow(s)
    ensures s[0] == s[1] && (|s| > 2 ==> s[2] != s[1]) && IsDow(s[2..])
  {
    var v, t := s[0], s[2..];
    FirstPairSplit(s);
    assert Count(s, v) == 2;
    assert s[1] == v;
    assert v !in multiset(t);
    forall i | 0 <= i < |t| ensures Count(t, t[i]) == 2 {
      assert s[i + 2] == t[i];
      assert t[i] in multiset(t);
    }
    if |s| > 2 {
      assert t[0] in multiset(t);
    }
  }

  /** A word of even length is a double occurrence word exactly when its sorted copy is paired. */
  lemma SortedCheck(word: seq<nat>)
    requires |word| % 2 == 0
    ensures |Sort(word)| == |word|
    ensures PairedRuns(Sort(word)) <==> IsDow(word)
  {
    SortSpec(word);
    assert |Sort(word)| == |multiset(Sort(word))|;
    DowMultiset(word, Sort(word));
    RunsDow(Sort(word));
  }

  /**
   * is_double_occurrence: odd lengths are rejected, a two-letter loop is accepted,
   * otherwise the sorted copy must consist of equal pairs of distinct letters.
   */
  method IsDoubleOccurrence(word: seq<nat>) returns (ok: bool)
    ensures ok <==> IsDow(word)
  {
    if |word| % 2 == 1 {
      if IsDow(word) {
        DowLength(word);
      }
      return false;
    } else if |word| == 2 && word[0] == word[1] {
      assert multiset(word) == multiset{word[0], word[0]} by {
        assert word == [word[0], word[0]];
      }
      return true;
    }
    var sortedWord := Sort(word);
    SortedCheck(word);
    var i := 0;
    while 2 * i < |word|
      invariant 2 * i <= |word|
      invariant forall k :: 0 <= k < i ==> PairAt(sortedWord, k)
    {
      var j := 2 * i;
      if sortedWord[j] != sortedWord[j + 1] || At(sortedWord, j - 1) == Some(sortedWord[j]) {
        assert !PairAt(sortedWord, i);
        return false;
      }
      i := i + 1;
    }
    return true;
  }

  // ---------------------------------------------------------------------------
  // relabel
  // ---------------------------------------------------------------------------

  /** The queue new_letters holds the labels next, next + 1, ..., size / 2. */
  predicate Queue(q: seq<nat>, next: nat, size: nat)
  {
    |q| + next == size / 2 + 1 && forall t :: 0 <= t < |q| ==> q[t] == next + t
  }

  /** The first loop of relabel: the labels 1, 2, ..., size / 2 in order. */
  method LabelQueue(size: nat) returns (newLetters: seq<nat>)
    ensures Queue(newLetters, 1, size)
  {
    newLetters := [];
    for i := 1 to size / 2 + 1
      invariant |newLetters| == i - 1
      invariant forall t :: 0 <= t < |newLetters| ==> newLetters[t] == t + 1
    {
      newLetters := newLetters + [i];
    }
  }

  /**
   * relabel: a copy in which, for each i with a later j holding the same letter,
   * both positions get the front of the queue 1, 2, ..., |word|/2, which is then
   * shifted off. On a DOW this is the canonical form.
   */
  method Relabel(word: seq<nat>) returns (newWord: seq<nat>)
    requires IsDow(word)
    ensures newWord == Canon(word)
  {
    newWord := word;
    var newLetters := LabelQueue(|word|);
    assert word[..0] == [];
    ghost var next: nat := 1;
    for i := 0 to |word|
      invariant |newWord| == |word|
      invariant next == 1 + |Dedup(word[..i])|
      invariant Queue(newLetters, next, |word|)
      invariant LabelledBelow(newWord, word, i)
    {
      newWord, newLetters, next := RelabelRow(word, i, newWord, newLetters, next);
    }
    RelabelDone(newWord, word);
  }

  /** The inner loop of relabel for row i: labels the pair whose first occurrence is i, if any. */
  method RelabelRow(word: seq<nat>, i: nat, newWord0: seq<nat>, newLetters0: seq<nat>, ghost next0: nat)
    returns (newWord: seq<nat>, newLetters: seq<nat>, ghost next: nat)
    requires IsDow(word) && i < |word| && |newWord0| == |word|
    requires next0 == 1 + |Dedup(word[..i])| && Queue(newLetters0, next0, |word|)
    requires LabelledBelow(newWord0, word, i)
    ensures |newWord| == |word|
    ensures next == 1 + |Dedup(word[..i + 1])| && Queue(newLetters, next, |word|)
    ensures LabelledBelow(newWord, word, i + 1)
  {
    newWord, newLetters, next := newWord0, newLetters0, next0;
    ghost var first := word[i] !in word[..i];
    ghost var m := Mate(word, i);
    RelabelFirst(word, i);
    for j := i + 1 to |word|
      invariant |newWord| == |word|
      invariant next == 1 + |Dedup(word[..i])| + if first && m < j then 1 else 0
      invariant Queue(newLetters, next, |word|)
      invariant LabelledBelow(newWord, word, i)
      invariant first && m < j ==> newWord[i] == Canon(word)[i] && newWord[m] == Canon(word)[m]
    {
      if word[i] == word[j] {
        RelabelRowPair(word, i, j, newWord, newLetters, next);
        newWord := newWord[i := newLetters[0]];
        newWord := newWord[j := newLetters[0]];
        newLetters := newLetters[1..];
        next := next + 1;
      }
    }
    RelabelRowEnd(word, i, newWord);
  }

  /** One pair found by the inner loop of relabel: the front of the queue is its canonical label. */
  lemma RelabelRowPair(word: seq<nat>, i: nat, j: nat, s: seq<nat>, q: seq<nat>, next: nat)
    requires IsDow(word) && i < j < |word| && word[i] == word[j] && |s| == |word|
    requires next == 1 + |Dedup(word[..i])| && Queue(q, next, |word|)
    requires LabelledBelow(s, word, i)
    ensures j == Mate(word, i) && word[i] !in word[..i]
    ensures |q| > 0 && Queue(q[1..], next + 1, |word|)
    ensures LabelledBelow(s[i := q[0]][j := q[0]], word, i)
    ensures q[0] == Canon(word)[i] == Canon(word)[j]
  {
    RelabelPair(word, i, j);
    QueueFront(word, i, q, next);
    RelabelWrite(s, word, i, j, q[0]);
  }

  /** At a first occurrence the queue still holds a label, and it is the next one. */
  lemma QueueFront(word: seq<nat>, i: nat, q: seq<nat>, next: nat)
    requires IsDow(word) && i < |word| && word[i] !in word[..i]
    requires next == 1 + |Dedup(word[..i])| && Queue(q, next, |word|)
    ensures |q| > 0 && q[0] == next && Queue(q[1..], next + 1, |word|)
  {
    FirstOccurrenceRank(word, i);
    DowLength(word);
    assert forall t :: 0 <= t < |q| - 1 ==> q[1..][t] == q[t + 1];
  }

  /** After the inner loop of relabel, row i is labelled. */
  lemma RelabelRowEnd(word: seq<nat>, i: nat, s: seq<nat>)
    requires IsDow(word) && i < |word| && |s| == |word|
    requires LabelledBelow(s, word, i)
    requires word[i] !in word[..i] ==> s[i] == Canon(word)[i] && s[Mate(word, i)] == Canon(word)[Mate(word, i)]
    ensures |Dedup(word[..i + 1])| == |Dedup(word[..i])| + if word[i] in word[..i] then 0 else 1
    ensures LabelledBelow(s, word, i + 1)
  {
    DedupPrefixLength(word, i);
    RelabelAdvance(s, word, i);
  }

  // ---------------------------------------------------------------------------
  // remove and remove_sequences
  // ---------------------------------------------------------------------------

  /**
   * splice(start, 1) on an array: deletes the element at start. An undefined start
   * counts as 0, and a start past the end deletes nothing.
   */
  function Splice(s: seq<nat>, start: Option<nat>): seq<nat>
  {
    var i := if start.Some? then start.value else 0;
    if i < |s| then s[..i] + s[i + 1..] else s
  }

  /** What remove and the inner loop of remove_sequences compute: splice out occs[1], then occs[0]. */
  function RemovePair(w: seq<nat>, x: nat): seq<nat>
  {
    var occs := Positions(w, x);
    Splice(Splice(w, At(occs, 1)), At(occs, 0))
  }

  /** For a letter occurring twice, the two splices delete exactly its occurrences and keep the order of the rest. */
  lemma RemovePairKeep(w: seq<nat>, x: nat)
    requires Count(w, x) == 2
    ensures RemovePair(w, x) == Keep(w, {x})
    ensures |RemovePair(w, x)| == |w| - 2
  {
    PositionsPair(w, x);
    SecondOfSpec(w, x);
    var o1, o2 := FirstOf(w, x), SecondOf(w, x);
    SpliceTwice(w, o1, o2);
    SplitTwice(w, o1, o2);
    KeepCut(w[..o1], w[o1 + 1..o2], w[o2 + 1..], x);
  }

  lemma SplitTwice(w: seq<nat>, o1: nat, o2: nat)
    requires o1 < o2 < |w|
    ensures w == w[..o1] + [w[o1]] + w[o1 + 1..o2] + [w[o2]] + w[o2 + 1..]
  {
    assert w[..o2] == w[..o1] + [w[o1]] + w[o1 + 1..o2];
    assert w == w[..o2] + [w[o2]] + w[o2 + 1..];
  }

  lemma SpliceTwice(w: seq<nat>, o1: nat, o2: nat)
    requires o1 < o2 < |w|
    ensures Splice(Splice(w, Some(o2)), Some(o1)) == w[..o1] + w[o1 + 1..o2] + w[o2 + 1..]
  {
    var u := w[..o2] + w[o2 + 1..];
    assert Splice(w, Some(o2)) == u;
    assert u[..o1] == w[..o1];
    assert u[o1 + 1..] == w[o1 + 1..o2] + w[o2 + 1..];
  }

  lemma KeepCut(pre: seq<nat>, mid: seq<nat>, post: seq<nat>, x: nat)
    requires x !in pre && x !in mid && x !in post
    ensures Keep(pre + [x] + mid + [x] + post, {x}) == pre + mid + post
  {
    var D := {x};
    var a := pre + [x];
    var b := a + mid;
    var c := b + [x];
    KeepFree(pre, D);
    KeepFree(mid, D);
    KeepFree(post, D);
    assert Keep([x], D) == [];
    KeepAppend(pre, [x], D);
    assert Keep(a, D) == pre;
    KeepAppend(a, mid, D);
    assert Keep(b, D) == pre + mid;
    KeepAppend(b, [x], D);
    assert Keep(c, D) == pre + mid;
    KeepAppend(c, post, D);
  }

  /** remove: deletes the second and then the first occurrence of the letter from a copy of the word. */
  method Remove(word: seq<nat>, letter: nat) returns (newWord: seq<nat>)
    ensures newWord == RemovePair(word, letter)
    ensures Count(word, letter) == 2 ==> newWord == Keep(word, {letter}) && |newWord| == |word| - 2
  {
    var occs := Occurrences(word, letter);
    var occ1, occ2 := At(occs, 0), At(occs, 1);
    newWord := Splice(word, occ2);
    newWord := Splice(newWord, occ1);
    if Count(word, letter) == 2 {
      RemovePairKeep(word, letter);
    }
  }

  /** The word after removing the letters of a list one after another. */
  function RemoveLetters(w: seq<nat>, letters: seq<nat>): seq<nat>
  {
    if letters == [] then w
    else RemovePair(RemoveLetters(w, letters[..|letters| - 1]), letters[|letters| - 1])
  }

  /** What remove_sequences computes: for each subword in turn, remove each of its distinct letters. */
  function RemoveAll(w: seq<nat>, seqs: seq<seq<nat>>): seq<nat>
  {
    if seqs == [] then w
    else RemoveLetters(RemoveAll(w, seqs[..|seqs| - 1]), Dedup(seqs[|seqs| - 1]))
  }

  /** remove_sequences: splices the letters of every subword out of a copy of the word. */
  method RemoveSequences(fixedWord: seq<nat>, seqs: seq<seq<nat>>) returns (word: seq<nat>)
    ensures word == RemoveAll(fixedWord, seqs)
  {
    word := fixedWord;
    for i := 0 to |seqs|
      invariant word == RemoveAll(fixedWord, seqs[..i])
    {
      var letters := Alpha(seqs[i]);
      ghost var base := word;
      for j := 0 to |letters|
        invariant word == RemoveLetters(base, letters[..j])
      {
        var occs := Occurrences(word, letters[j]);
        word := Splice(word, At(occs, 1));
        word := Splice(word, At(occs, 0));
        assert letters[..j + 1][..j] == letters[..j];
      }
      assert letters[..|letters|] == letters;
      assert seqs[..i + 1][..i] == seqs[..i];
    }
    assert seqs[..|seqs|] == seqs;
  }

  /** Removing distinct letters that each occur twice removes exactly those letters. */
  lemma {:induction false} RemoveLettersKeep(w: seq<nat>, letters: seq<nat>, D: set<nat>)
    requires NoDup(letters)
    requires forall k :: 0 <= k < |letters| ==> Count(w, letters[k]) == 2
    requires forall x :: x in D <==> x in letters
    ensures RemoveLetters(w, letters) == Keep(w, D)
  {
    if letters == [] {
      assert D == {};
      KeepFree(w, {});
    } else {
      var q, y := letters[..|letters| - 1], letters[|letters| - 1];
      var A := D - {y};
      DropLast(letters, q, y, D);
      RemoveLettersKeep(w, q, A);
      RemoveOneMore(w, letters, q, y, A);
    }
  }

  lemma DropLast(letters: seq<nat>, q: seq<nat>, y: nat, D: set<nat>)
    requires NoDup(letters) && letters == q + [y]
    requires forall x :: x in D <==> x in letters
    ensures NoDup(q) && forall k :: 0 <= k < |q| ==> q[k] == letters[k]
    ensures forall x :: x in D - {y} <==> x in q
    ensures y in D && y !in q && D == (D - {y}) + {y}
  {
    assert forall k :: 0 <= k < |q| ==> q[k] == letters[k];
    assert letters[|q|] == y;
    forall x ensures x in D - {y} <==> x in q {
      if x in q {
        var k :| 0 <= k < |q| && q[k] == x;
        assert letters[k] == x && letters[k] != letters[|q|];
      }
    }
  }

  lemma RemoveOneMore(w: seq<nat>, letters: seq<nat>, q: seq<nat>, y: nat, A: set<nat>)
    requires letters == q + [y] && RemoveLetters(w, q) == Keep(w, A)
    requires y !in A && Count(w, y) == 2
    ensures RemoveLetters(w, letters) == Keep(w, A + {y})
  {
    assert letters[..|letters| - 1] == q;
    KeepCount(w, A, y);
    RemovePairKeep(Keep(w, A), y);
    KeepKeep(w, A, {y});
  }

  /**
   * When no letter belongs to two subwords and every subword letter occurs twice,
   * remove_sequences removes exactly the letters of the subwords.
   */
  lemma {:induction false} RemoveAllKeep(w: seq<nat>, seqs: seq<seq<nat>>)
    requires forall k, x :: 0 <= k < |seqs| && x in seqs[k] ==> Count(w, x) == 2
    requires forall k, l, x :: 0 <= k < l < |seqs| && x in seqs[k] ==> x !in seqs[l]
    ensures RemoveAll(w, seqs) == Keep(w, Letters(seqs))
  {
    if seqs == [] {
      KeepFree(w, {});
      assert Letters(seqs) == {};
    } else {
      var p, s := seqs[..|seqs| - 1], seqs[|seqs| - 1];
      assert seqs == p + [s];
      LettersSnoc(p, s);
      assert forall k :: 0 <= k < |p| ==> p[k] == seqs[k];
      RemoveAllKeep(w, p);
      var A := Letters(p);
      var u := Keep(w, A);
      var d := Dedup(s);
      DedupSpec(s);
      forall k | 0 <= k < |d| ensures Count(u, d[k]) == 2 {
        assert d[k] in s;
        assert d[k] !in A;
        KeepCount(w, A, d[k]);
      }
      RemoveLettersKeep(u, d, set x | x in s);
      KeepKeep(w, A, set x | x in s);
    }
  }
}
