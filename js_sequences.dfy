/**
 * The sequences and tau_sequences functions of reductions.js. For every letter of a
 * double occurrence word, sequences looks for a return word (type A: the subword from
 * the letter's first to its second occurrence reads the same backwards) and a repeat
 * word (type B: the subword u from the first occurrence up to the second is followed by
 * a copy of u). tau_sequences keeps the entries that cannot be widened.
 */
module JsSequences {
  import opened Dow
  import opened JsWords

  /** An entry found by sequences: the subword w[lo..hi], of type A when typeA holds, else of type B. */
  datatype Span = Span(lo: nat, hi: nat, typeA: bool)

  // ---------------------------------------------------------------------------
  // The two shapes
  // ---------------------------------------------------------------------------

  /** The test of the type-A loop at step n. */
  predicate Mirror(w: seq<nat>, o1: nat, o2: nat, n: nat)
    requires o1 + n < |w| && n <= o2 < |w|
  {
    w[o1 + n] == w[o2 - n]
  }

  /** A return word spans o1..o2 (both included): its length is even and it reads the same backwards. */
  predicate ReturnAt(w: seq<nat>, o1: nat, o2: nat)
    requires o1 < o2 < |w|
  {
    (o2 - o1) % 2 == 1 && forall n :: 0 <= n <= (o2 - o1) / 2 ==> Mirror(w, o1, o2, n)
  }

  /** The test of the type-B loop at step n. */
  predicate Shifted(w: seq<nat>, o1: nat, o2: nat, n: nat)
    requires o1 <= o2 && o2 + n < |w|
  {
    w[o1 + n] == w[o2 + n]
  }

  /**
   * A repeat word starts at o1: the word is not a single loop, holds at least one letter
   * strictly between o1 and o2, and the subword o1..o2 (o2 excluded) is followed by a copy of it.
   */
  predicate RepeatAt(w: seq<nat>, o1: nat, o2: nat)
    requires o1 < o2 < |w|
  {
    |w| != 2 && 2 * o2 - o1 <= |w| && o2 - o1 >= 2 &&
    forall n :: 1 <= n < o2 - o1 ==> Shifted(w, o1, o2, n)
  }

  /** The type-A entry of the letter occurring at o1 and o2, if there is one. */
  function ReturnSpans(w: seq<nat>, o1: nat, o2: nat): seq<Span>
    requires o1 < o2 < |w|
  {
    if ReturnAt(w, o1, o2) then [Span(o1, o2 + 1, true)] else []
  }

  /** The type-B entry of the letter occurring at o1 and o2, if there is one. */
  function RepeatSpans(w: seq<nat>, o1: nat, o2: nat): seq<Span>
    requires o1 < o2 < |w|
  {
    if RepeatAt(w, o1, o2) then [Span(o1, 2 * o2 - o1, false)] else []
  }

  /** The entries sequences records for the letter a, in the order it pushes them. */
  function LetterSpans(w: seq<nat>, a: nat): seq<Span>
    requires Count(w, a) == 2
  {
    ReturnSpans(w, FirstOf(w, a), SecondOf(w, a)) + RepeatSpans(w, FirstOf(w, a), SecondOf(w, a))
  }

  predicate AllTwice(w: seq<nat>, letters: seq<nat>)
  {
    forall k :: 0 <= k < |letters| ==> Count(w, letters[k]) == 2
  }

  /** The entries of the given letters, letter by letter. */
  function SpansOver(w: seq<nat>, letters: seq<nat>): seq<Span>
    requires AllTwice(w, letters)
  {
    if letters == [] then []
    else SpansOver(w, letters[..|letters| - 1]) + LetterSpans(w, letters[|letters| - 1])
  }

  lemma DedupTwice(w: seq<nat>)
    requires IsDow(w)
    ensures AllTwice(w, Dedup(w))
  {
    DedupSpec(w);
    forall k | 0 <= k < |Dedup(w)| ensures Count(w, Dedup(w)[k]) == 2 {
      assert Dedup(w)[k] in Dedup(w);
      var i :| 0 <= i < |w| && w[i] == Dedup(w)[k];
    }
  }

  /** The entries sequences finds, in the order of the letters' first occurrences. */
  function Found(w: seq<nat>): seq<Span>
    requires IsDow(w)
  {
    DedupTwice(w);
    SpansOver(w, Dedup(w))
  }

  /** Where an entry places the second occurrence of its first letter. */
  function Second(s: Span): int
  {
    if s.typeA then s.hi - 1 else (s.lo + s.hi) / 2
  }

  /** s is a type-A or a type-B entry: its first letter occurs again at Second(s), with the shape of its type. */
  predicate Entry(w: seq<nat>, s: Span)
  {
    s.lo < Second(s) < |w| && w[Second(s)] == w[s.lo] &&
    if s.typeA then ReturnAt(w, s.lo, Second(s))
    else RepeatAt(w, s.lo, Second(s)) && s.hi == 2 * Second(s) - s.lo
  }

  predicate Entries(w: seq<nat>, spans: seq<Span>)
  {
    forall k :: 0 <= k < |spans| ==> Entry(w, spans[k])
  }

  predicate Fits(w: seq<nat>, s: Span)
  {
    s.lo <= s.hi <= |w|
  }

  predicate AllFit(w: seq<nat>, spans: seq<Span>)
  {
    forall k :: 0 <= k < |spans| ==> Fits(w, spans[k])
  }

  /** The subwords the entries stand for. */
  function Slices(w: seq<nat>, spans: seq<Span>): (r: seq<seq<nat>>)
    requires AllFit(w, spans)
    ensures |r| == |spans|
  {
    seq(|spans|, k requires 0 <= k < |spans| && Fits(w, spans[k]) => w[spans[k].lo..spans[k].hi])
  }

  lemma EntryFits(w: seq<nat>, s: Span)
    requires Entry(w, s)
    ensures s.lo + 2 <= s.hi <= |w|
  {
  }

  lemma EntriesFit(w: seq<nat>, spans: seq<Span>)
    requires Entries(w, spans)
    ensures AllFit(w, spans)
  {
    forall k | 0 <= k < |spans| ensures Fits(w, spans[k]) {
      EntryFits(w, spans[k]);
    }
  }

  lemma SlicesSnoc(w: seq<nat>, spans: seq<Span>, s: Span)
    requires AllFit(w, spans) && Fits(w, s)
    ensures AllFit(w, spans + [s])
    ensures Slices(w, spans + [s]) == Slices(w, spans) + [w[s.lo..s.hi]]
  {
    assert AllFit(w, spans + [s]) by {
      forall k | 0 <= k < |spans| + 1 ensures Fits(w, (spans + [s])[k]) {
        if k < |spans| {
          assert (spans + [s])[k] == spans[k];
        }
      }
    }
  }

  // ---------------------------------------------------------------------------
  // The loops of sequences
  // ---------------------------------------------------------------------------

  /**
   * The type-A loop of sequences for a letter at o1 < o2. Reads past either end of the
   * word give undefined, which equals only undefined; on a word of even length the loop
   * stops before both reads are undefined at once.
   */
  method ReturnScan(w: seq<nat>, o1: nat, o2: nat) returns (found: bool)
    requires |w| % 2 == 0 && o1 < o2 < |w|
    ensures found <==> ReturnAt(w, o1, o2)
  {
    found := false;
    var n: nat := 0;
    ghost var gap := o2 - o1;
    ghost var bound: nat := if gap % 2 == 1 then gap / 2
      else if |w| - o1 < o2 + 1 then |w| - o1 else o2 + 1;
    while At(w, o1 + n) == At(w, o2 - n)
      invariant n <= bound
      invariant gap % 2 == 1 ==> forall k :: 0 <= k < n ==> Mirror(w, o1, o2, k)
      decreases bound - n
    {
      if (o2 - n) - (o1 + n) == 1 {
        found := true;
        assert Mirror(w, o1, o2, n);
        return;
      }
      if gap % 2 == 1 {
        assert Mirror(w, o1, o2, n);
      }
      n := n + 1;
    }
    if gap % 2 == 1 {
      assert !Mirror(w, o1, o2, n);
    }
  }

  /** The type-B check of sequences: the guard, then the do-while loop as a loop with exits. */
  method RepeatScan(w: seq<nat>, o1: nat, o2: nat) returns (found: bool)
    requires o1 < o2 < |w|
    ensures found <==> RepeatAt(w, o1, o2)
  {
    if o2 + (o2 - o1 - 1) >= |w| || |w| == 2 {
      return false;
    }
    found := false;
    var n: nat := 0;
    while true
      invariant o2 + n < |w|
      invariant o2 - o1 >= 2 ==> n < o2 - o1 - 1
      invariant forall k :: 1 <= k <= n ==> Shifted(w, o1, o2, k)
      decreases |w| - o2 - n
    {
      n := n + 1;
      if o2 - (o1 + n) == 1 && At(w, o1 + n) == At(w, o2 + n) {
        found := true;
        assert Shifted(w, o1, o2, n);
        return;
      }
      if At(w, o1 + n) != At(w, o2 + n) {
        if o2 - o1 >= 2 {
          assert !Shifted(w, o1, o2, n);
        }
        return;
      }
    }
  }

  /** The copy loop: pushes w[lo], ..., w[hi - 1]. */
  method CopyRange(w: seq<nat>, lo: nat, hi: nat) returns (r: seq<nat>)
    requires lo <= hi <= |w|
    ensures r == w[lo..hi]
  {
    r := [];
    for j := lo to hi
      invariant r == w[lo..j]
    {
      r := r + [w[j]];
    }
  }

  lemma SpansOverStep(w: seq<nat>, letters: seq<nat>, i: nat)
    requires AllTwice(w, letters) && i < |letters|
    ensures AllTwice(w, letters[..i]) && AllTwice(w, letters[..i + 1])
    ensures SpansOver(w, letters[..i + 1]) == SpansOver(w, letters[..i]) + LetterSpans(w, letters[i])
  {
    assert letters[..i + 1][..i] == letters[..i];
    assert forall k :: 0 <= k <= i ==> letters[..i + 1][k] == letters[k];
  }

  lemma SpanEntries(w: seq<nat>, o1: nat, o2: nat)
    requires o1 < o2 < |w| && w[o1] == w[o2]
    ensures Entries(w, ReturnSpans(w, o1, o2)) && Entries(w, RepeatSpans(w, o1, o2))
    ensures forall k :: 0 <= k < |ReturnSpans(w, o1, o2)| ==> ReturnSpans(w, o1, o2)[k].lo == o1
    ensures forall k :: 0 <= k < |RepeatSpans(w, o1, o2)| ==> RepeatSpans(w, o1, o2)[k].lo == o1
  {
  }

  lemma LetterSpansEntries(w: seq<nat>, a: nat)
    requires Count(w, a) == 2
    ensures Entries(w, LetterSpans(w, a)) && AllFit(w, LetterSpans(w, a))
    ensures forall k :: 0 <= k < |LetterSpans(w, a)| ==> w[LetterSpans(w, a)[k].lo] == a
  {
    var o1, o2 := FirstOf(w, a), SecondOf(w, a);
    SpanEntries(w, o1, o2);
    var sa, sb := ReturnSpans(w, o1, o2), RepeatSpans(w, o1, o2);
    EntriesAppend(w, sa, sb);
    EntriesFit(w, sa + sb);
    assert forall k :: 0 <= k < |sa + sb| ==> (sa + sb)[k].lo == o1;
  }

  lemma EntriesAppend(w: seq<nat>, u: seq<Span>, v: seq<Span>)
    requires Entries(w, u) && Entries(w, v)
    ensures Entries(w, u + v)
  {
    forall k | 0 <= k < |u + v| ensures Entry(w, (u + v)[k]) {
      if k < |u| {
        assert (u + v)[k] == u[k];
      } else {
        assert (u + v)[k] == v[k - |u|];
      }
    }
  }

  /** One pass of the loop of sequences: the subwords of the entries of the letter a. */
  method LetterSequences(word: seq<nat>, a: nat) returns (seqs: seq<seq<nat>>)
    requires |word| % 2 == 0 && Count(word, a) == 2
    ensures AllFit(word, LetterSpans(word, a))
    ensures seqs == Slices(word, LetterSpans(word, a))
  {
    var occs := Occurrences(word, a);
    PositionsPair(word, a);
    var occ1, occ2 := occs[0], occs[1];
    var seqA: seq<seq<nat>> := [];
    var isA := ReturnScan(word, occ1, occ2);
    if isA {
      var s := CopyRange(word, occ1, occ2 + 1);
      seqA := [s];
    }
    var seqB: seq<seq<nat>> := [];
    var isB := RepeatScan(word, occ1, occ2);
    if isB {
      var s := CopyRange(word, occ1, 2 * occ2 - occ1);
      seqB := [s];
    }
    seqs := seqA + seqB;
    LetterSlices(word, a, seqA, seqB);
  }

  lemma LetterSlices(w: seq<nat>, a: nat, seqA: seq<seq<nat>>, seqB: seq<seq<nat>>)
    requires Count(w, a) == 2
    requires var o1, o2 := FirstOf(w, a), SecondOf(w, a);
      seqA == (if ReturnAt(w, o1, o2) then [w[o1..o2 + 1]] else []) &&
      seqB == (if RepeatAt(w, o1, o2) then [w[o1..2 * o2 - o1]] else [])
    ensures AllFit(w, LetterSpans(w, a))
    ensures seqA + seqB == Slices(w, LetterSpans(w, a))
  {
    var o1, o2 := FirstOf(w, a), SecondOf(w, a);
    var sa, sb := ReturnSpans(w, o1, o2), RepeatSpans(w, o1, o2);
    LetterSpansEntries(w, a);
    SpanEntries(w, o1, o2);
    EntriesFit(w, sa);
    EntriesFit(w, sb);
    SliceOne(w, sa, seqA);
    SliceOne(w, sb, seqB);
    SlicesAppend(w, sa, sb);
  }

  /** The subwords of a list of at most one entry. */
  lemma SliceOne(w: seq<nat>, ss: seq<Span>, subs: seq<seq<nat>>)
    requires |ss| <= 1 && |subs| == |ss|
    requires forall k :: 0 <= k < |ss| ==> Fits(w, ss[k]) && subs[k] == w[ss[k].lo..ss[k].hi]
    ensures AllFit(w, ss) && Slices(w, ss) == subs
  {
  }

  lemma SlicesAppend(w: seq<nat>, u: seq<Span>, v: seq<Span>)
    requires AllFit(w, u) && AllFit(w, v)
    ensures AllFit(w, u + v)
    ensures Slices(w, u + v) == Slices(w, u) + Slices(w, v)
  {
    assert forall k :: 0 <= k < |u| ==> (u + v)[k] == u[k];
    assert forall k :: |u| <= k < |u + v| ==> (u + v)[k] == v[k - |u|];
  }

  /** sequences: the subwords of all entries, letter by letter in the order alpha lists the letters. */
  method Sequences(word: seq<nat>) returns (seqs: seq<seq<nat>>)
    requires IsDow(word)
    ensures Entries(word, Found(word)) && AllFit(word, Found(word))
    ensures seqs == Slices(word, Found(word))
  {
    DowLength(word);
    seqs := [];
    var alphOfW := Alpha(word);
    DedupTwice(word);
    for i := 0 to |alphOfW|
      invariant AllTwice(word, alphOfW[..i])
      invariant Entries(word, SpansOver(word, alphOfW[..i]))
      invariant AllFit(word, SpansOver(word, alphOfW[..i]))
      invariant seqs == Slices(word, SpansOver(word, alphOfW[..i]))
    {
      var found := LetterSequences(word, alphOfW[i]);
      seqs := seqs + found;
      SequencesStep(word, alphOfW, i);
    }
    assert alphOfW[..|alphOfW|] == alphOfW;
  }

  lemma SequencesStep(w: seq<nat>, letters: seq<nat>, i: nat)
    requires AllTwice(w, letters) && i < |letters|
    requires AllTwice(w, letters[..i]) && Entries(w, SpansOver(w, letters[..i]))
    ensures AllTwice(w, letters[..i + 1])
    ensures Entries(w, SpansOver(w, letters[..i + 1])) && AllFit(w, SpansOver(w, letters[..i + 1]))
    ensures AllFit(w, SpansOver(w, letters[..i])) && AllFit(w, LetterSpans(w, letters[i]))
    ensures Slices(w, SpansOver(w, letters[..i + 1]))
         == Slices(w, SpansOver(w, letters[..i])) + Slices(w, LetterSpans(w, letters[i]))
  {
    SpansOverStep(w, letters, i);
    var before := SpansOver(w, letters[..i]);
    LetterSpansEntries(w, letters[i]);
    EntriesAppend(w, before, LetterSpans(w, letters[i]));
    EntriesFit(w, before);
    EntriesFit(w, before + LetterSpans(w, letters[i]));
    SlicesAppend(w, before, LetterSpans(w, letters[i]));
  }

  // ---------------------------------------------------------------------------
  // What sequences finds
  // ---------------------------------------------------------------------------

  /** An element of a non-empty sequence is its last one or an element of the rest. */
  lemma SplitLast<T>(s: seq<T>, x: T)
    requires s != []
    ensures x in s <==> x in s[..|s| - 1] || x == s[|s| - 1]
  {
    assert s == s[..|s| - 1] + [s[|s| - 1]];
  }

  /** The entries of all letters but the last, then those of the last letter. */
  lemma SpansOverLast(w: seq<nat>, letters: seq<nat>)
    requires AllTwice(w, letters) && letters != []
    ensures AllTwice(w, letters[..|letters| - 1])
    ensures SpansOver(w, letters) == SpansOver(w, letters[..|letters| - 1]) + LetterSpans(w, letters[|letters| - 1])
  {
    assert forall k :: 0 <= k < |letters| - 1 ==> letters[..|letters| - 1][k] == letters[k];
  }

  lemma {:induction false} SpansOverEntries(w: seq<nat>, letters: seq<nat>)
    requires AllTwice(w, letters)
    ensures Entries(w, SpansOver(w, letters)) && AllFit(w, SpansOver(w, letters))
  {
    if letters != [] {
      var q := letters[..|letters| - 1];
      assert forall k :: 0 <= k < |q| ==> q[k] == letters[k];
      SpansOverEntries(w, q);
      LetterSpansEntries(w, letters[|letters| - 1]);
      EntriesAppend(w, SpansOver(w, q), LetterSpans(w, letters[|letters| - 1]));
      EntriesFit(w, SpansOver(w, letters));
    }
  }

  lemma FoundEntries(w: seq<nat>)
    requires IsDow(w)
    ensures Entries(w, Found(w)) && AllFit(w, Found(w))
  {
    DedupTwice(w);
    SpansOverEntries(w, Dedup(w));
  }

  /** In a DOW, two positions holding the same letter are its first and second occurrences. */
  lemma BothOccurrences(w: seq<nat>, p: nat, q: nat)
    requires IsDow(w) && p < q < |w| && w[p] == w[q]
    ensures Count(w, w[p]) == 2 && FirstOf(w, w[p]) == p && SecondOf(w, w[p]) == q
  {
    var m := Mate(w, p);
    assert m == q;
  }

  lemma LetterSpansMember(w: seq<nat>, y: nat, s: Span)
    requires IsDow(w) && Count(w, y) == 2
    ensures s in LetterSpans(w, y) <==> Entry(w, s) && w[s.lo] == y
  {
    if Entry(w, s) && w[s.lo] == y {
      BothOccurrences(w, s.lo, Second(s));
      EntryListed(w, s);
    } else {
      LetterSpansEntries(w, y);
    }
  }

  lemma EntryListed(w: seq<nat>, s: Span)
    requires Entry(w, s) && Count(w, w[s.lo]) == 2
    requires FirstOf(w, w[s.lo]) == s.lo && SecondOf(w, w[s.lo]) == Second(s)
    ensures s in LetterSpans(w, w[s.lo])
  {
    var o1, o2 := s.lo, Second(s);
    if s.typeA {
      assert s == Span(o1, o2 + 1, true) && s in ReturnSpans(w, o1, o2);
    } else {
      assert s == Span(o1, 2 * o2 - o1, false) && s in RepeatSpans(w, o1, o2);
    }
  }

  lemma {:induction false} SpansOverMember(w: seq<nat>, letters: seq<nat>, s: Span)
    requires IsDow(w) && AllTwice(w, letters)
    ensures s in SpansOver(w, letters) <==> Entry(w, s) && w[s.lo] in letters
  {
    if letters != [] {
      var q, y := letters[..|letters| - 1], letters[|letters| - 1];
      SpansOverLast(w, letters);
      SpansOverMember(w, q, s);
      LetterSpansMember(w, y, s);
      if s.lo < |w| {
        SplitLast(letters, w[s.lo]);
      }
    }
  }

  /** sequences finds every entry of the word and nothing else. */
  lemma FoundSpec(w: seq<nat>, s: Span)
    requires IsDow(w)
    ensures s in Found(w) <==> Entry(w, s)
  {
    DedupTwice(w);
    SpansOverMember(w, Dedup(w), s);
    if Entry(w, s) {
      DedupMember(w, w[s.lo]);
    }
  }

  /** The letter at the position mirrored or shifted to q inside the entry s. */
  function Partner(s: Span, q: nat): int
  {
    if s.typeA then s.lo + s.hi - 1 - q
    else if q < (s.lo + s.hi) / 2 then q + (s.hi - s.lo) / 2
    else q - (s.hi - s.lo) / 2
  }

  /** Inside a type-A entry, the mirrored position holds the same letter. */
  lemma ReturnPartner(w: seq<nat>, s: Span, q: nat)
    requires Entry(w, s) && s.typeA && s.lo <= q < s.hi
    ensures s.lo <= Partner(s, q) < s.hi && Partner(s, q) != q && w[Partner(s, q)] == w[q]
  {
    var o1, o2: nat := s.lo, s.hi - 1;
    if q - o1 <= (o2 - o1) / 2 {
      assert Mirror(w, o1, o2, q - o1);
    } else {
      assert Mirror(w, o1, o2, o2 - q);
    }
  }

  /** Inside a type-B entry, the position shifted by half the length holds the same letter. */
  lemma RepeatPartner(w: seq<nat>, s: Span, q: nat)
    requires Entry(w, s) && !s.typeA && s.lo <= q < s.hi
    ensures s.lo <= Partner(s, q) < s.hi && Partner(s, q) != q && w[Partner(s, q)] == w[q]
  {
    var o1, o2: nat := s.lo, Second(s);
    if o1 < q < o2 {
      assert Shifted(w, o1, o2, q - o1);
    } else if q > o2 {
      assert Shifted(w, o1, o2, q - o2);
    }
  }

  /** Inside an entry, the other occurrence of every letter lies in the entry, at the partner position. */
  lemma EntryMate(w: seq<nat>, s: Span, q: nat)
    requires IsDow(w) && Entry(w, s) && s.lo <= q < s.hi
    ensures s.lo <= Partner(s, q) < s.hi && Mate(w, q) == Partner(s, q)
  {
    if s.typeA {
      ReturnPartner(w, s, q);
    } else {
      RepeatPartner(w, s, q);
    }
  }

  /** No letter has both a type-A and a type-B entry. */
  lemma NotBoth(w: seq<nat>, o1: nat, o2: nat)
    requires IsDow(w) && o1 < o2 < |w|
    ensures !(ReturnAt(w, o1, o2) && RepeatAt(w, o1, o2))
  {
    if ReturnAt(w, o1, o2) && RepeatAt(w, o1, o2) {
      assert Mirror(w, o1, o2, 1) && Shifted(w, o1, o2, 1);
      ThreeOccurrences(w, o1 + 1, o2 - 1, o2 + 1);
      assert false;
    }
  }

  /** A letter has at most one entry, so entries with the same start are the same. */
  lemma EntryUnique(w: seq<nat>, s: Span, t: Span)
    requires IsDow(w) && Entry(w, s) && Entry(w, t) && s.lo == t.lo
    ensures s == t
  {
    BothOccurrences(w, s.lo, Second(s));
    BothOccurrences(w, t.lo, Second(t));
    NotBoth(w, s.lo, Second(s));
  }

  predicate DistinctLo(spans: seq<Span>)
  {
    forall i, j :: 0 <= i < j < |spans| ==> spans[i].lo != spans[j].lo
  }

  lemma {:induction false} SpansOverDistinct(w: seq<nat>, letters: seq<nat>)
    requires IsDow(w) && AllTwice(w, letters) && NoDup(letters)
    ensures DistinctLo(SpansOver(w, letters))
  {
    if letters != [] {
      var q, y := letters[..|letters| - 1], letters[|letters| - 1];
      SpansOverLast(w, letters);
      assert forall k :: 0 <= k < |q| ==> q[k] == letters[k];
      assert y !in q;
      SpansOverDistinct(w, q);
      LastLetterApart(w, q, y);
      DistinctLoAppend(SpansOver(w, q), LetterSpans(w, y));
    }
  }

  /** A letter not among q has at most one entry, and it starts where no entry of q does. */
  lemma LastLetterApart(w: seq<nat>, q: seq<nat>, y: nat)
    requires IsDow(w) && AllTwice(w, q) && Count(w, y) == 2 && y !in q
    ensures |LetterSpans(w, y)| <= 1
    ensures forall i, j :: 0 <= i < |SpansOver(w, q)| && 0 <= j < |LetterSpans(w, y)| ==>
      SpansOver(w, q)[i].lo != LetterSpans(w, y)[j].lo
  {
    var u, v := SpansOver(w, q), LetterSpans(w, y);
    SpansOverEntries(w, q);
    LetterSpansEntries(w, y);
    NotBoth(w, FirstOf(w, y), SecondOf(w, y));
    forall i | 0 <= i < |u| ensures w[u[i].lo] != y {
      SpansOverMember(w, q, u[i]);
    }
  }

  /** Appending at most one span whose start no span of u has keeps the starts distinct. */
  lemma DistinctLoAppend(u: seq<Span>, v: seq<Span>)
    requires DistinctLo(u) && |v| <= 1
    requires forall i, j :: 0 <= i < |u| && 0 <= j < |v| ==> u[i].lo != v[j].lo
    ensures DistinctLo(u + v)
  {
    forall i, j | 0 <= i < j < |u + v| ensures (u + v)[i].lo != (u + v)[j].lo {
      if j >= |u| {
        assert (u + v)[j] == v[j - |u|];
        assert (u + v)[i] == u[i];
      }
    }
  }

  lemma FoundDistinct(w: seq<nat>)
    requires IsDow(w)
    ensures DistinctLo(Found(w))
  {
    DedupTwice(w);
    DedupSpec(w);
    SpansOverDistinct(w, Dedup(w));
  }

  /** A type-A entry is a subword of even length that reads the same backwards. */
  lemma ReturnShape(w: seq<nat>, s: Span)
    requires Entry(w, s) && s.typeA
    ensures |w[s.lo..s.hi]| % 2 == 0 && Reverse(w[s.lo..s.hi]) == w[s.lo..s.hi]
  {
    var sub := w[s.lo..s.hi];
    forall i | 0 <= i < |sub| ensures Reverse(sub)[i] == sub[i] {
      ReturnPartner(w, s, s.lo + i);
    }
  }

  /** A type-B entry is a square u u with |u| >= 2. */
  lemma RepeatShape(w: seq<nat>, s: Span)
    requires Entry(w, s) && !s.typeA
    ensures var g := (s.hi - s.lo) / 2; g >= 2 && w[s.lo..s.hi] == w[s.lo..s.lo + g] + w[s.lo..s.lo + g]
  {
    var g := (s.hi - s.lo) / 2;
    var u := w[s.lo..s.lo + g];
    forall i | 0 <= i < 2 * g ensures w[s.lo..s.hi][i] == (u + u)[i] {
      RepeatPartner(w, s, s.lo + i);
      if i >= g {
        assert (u + u)[i] == u[i - g];
      }
    }
  }

  // ---------------------------------------------------------------------------
  // tau_sequences
  // ---------------------------------------------------------------------------

  /** tau_sequences keeps an entry unless it is of type A and the letters just outside it are equal. */
  predicate TauKeeps(w: seq<nat>, s: Span)
    requires Fits(w, s)
  {
    s.typeA ==> s.lo == 0 || s.hi == |w| || w[s.lo - 1] != w[s.hi]
  }

  function TauFilter(w: seq<nat>, spans: seq<Span>): seq<Span>
    requires AllFit(w, spans)
  {
    if spans == [] then []
    else
      var rest := TauFilter(w, spans[..|spans| - 1]);
      if TauKeeps(w, spans[|spans| - 1]) then rest + [spans[|spans| - 1]] else rest
  }

  /** The entries tau_sequences keeps, in the order sequences finds them. */
  function TauFound(w: seq<nat>): seq<Span>
    requires IsDow(w)
  {
    FoundEntries(w);
    TauFilter(w, Found(w))
  }

  lemma {:induction false} TauFilterSpec(w: seq<nat>, spans: seq<Span>)
    requires AllFit(w, spans)
    ensures forall k :: 0 <= k < |TauFilter(w, spans)| ==>
      TauFilter(w, spans)[k] in spans && Fits(w, TauFilter(w, spans)[k]) && TauKeeps(w, TauFilter(w, spans)[k])
    ensures AllFit(w, TauFilter(w, spans))
    ensures DistinctLo(spans) ==> DistinctLo(TauFilter(w, spans))
  {
    if spans != [] {
      var q, y := spans[..|spans| - 1], spans[|spans| - 1];
      assert spans == q + [y];
      TauFilterSpec(w, q);
      var rest := TauFilter(w, q);
      forall k | 0 <= k < |rest| ensures rest[k] in spans {
        assert rest[k] in q;
      }
      if DistinctLo(spans) {
        forall k | 0 <= k < |rest| ensures rest[k].lo != y.lo {
          var i :| 0 <= i < |q| && q[i] == rest[k];
          assert spans[i] == rest[k] && spans[|spans| - 1] == y;
        }
      }
    }
  }

  lemma TauFilterStep(w: seq<nat>, spans: seq<Span>, i: nat)
    requires AllFit(w, spans) && i < |spans|
    ensures AllFit(w, spans[..i]) && AllFit(w, spans[..i + 1])
    ensures AllFit(w, TauFilter(w, spans[..i])) && AllFit(w, TauFilter(w, spans[..i + 1]))
    ensures Slices(w, TauFilter(w, spans[..i + 1])) ==
      Slices(w, TauFilter(w, spans[..i])) + if TauKeeps(w, spans[i]) then [w[spans[i].lo..spans[i].hi]] else []
  {
    assert forall k :: 0 <= k < i ==> spans[..i][k] == spans[k];
    assert forall k :: 0 <= k <= i ==> spans[..i + 1][k] == spans[k];
    assert spans[..i + 1][..i] == spans[..i];
    TauFilterSpec(w, spans[..i]);
    TauFilterSpec(w, spans[..i + 1]);
    if TauKeeps(w, spans[i]) {
      SlicesSnoc(w, TauFilter(w, spans[..i]), spans[i]);
    }
  }

  /** For an entry, the occurrences of its first letter, and its type read off its end letters. */
  lemma TauTest(w: seq<nat>, s: Span)
    requires IsDow(w) && Entry(w, s)
    ensures Count(w, w[s.lo]) == 2 && FirstOf(w, w[s.lo]) == s.lo && SecondOf(w, w[s.lo]) == Second(s)
    ensures s.lo + 2 <= s.hi <= |w|
    ensures s.typeA <==> w[s.lo] == w[s.hi - 1]
  {
    BothOccurrences(w, s.lo, Second(s));
    if !s.typeA && w[s.lo] == w[s.hi - 1] {
      ThreeOccurrences(w, s.lo, Second(s), s.hi - 1);
    }
  }

  /** The test of tau_sequences, phrased on the two occurrences of the entry's first letter. */
  lemma TauDecision(w: seq<nat>, s: Span, occ1: nat, occ2: nat)
    requires s.lo + 2 <= s.hi <= |w| && occ1 == s.lo && occ2 == Second(s)
    requires s.typeA <==> w[s.lo] == w[s.hi - 1]
    ensures TauKeeps(w, s) <==>
      occ1 == 0 || occ2 == |w| - 1 || w[s.lo] != w[s.hi - 1] || w[occ1 - 1] != w[occ2 + 1]
  {
  }

  /** One pass of the loop of tau_sequences, on the subword sub of the entry s: whether it is kept. */
  method TauCheck(word: seq<nat>, sub: seq<nat>, ghost s: Span) returns (keep: bool)
    requires IsDow(word) && Entry(word, s) && sub == word[s.lo..s.hi]
    ensures Fits(word, s) && keep == TauKeeps(word, s)
  {
    TauTest(word, s);
    var first, last := sub[0], sub[|sub| - 1];
    assert first == word[s.lo] && last == word[s.hi - 1];
    var occs := Occurrences(word, first);
    PositionsPair(word, first);
    var occ1, occ2 := occs[0], occs[1];
    TauDecision(word, s, occ1, occ2);
    if occ1 == 0 || occ2 == |word| - 1 {
      keep := true;
    } else if first == last {
      keep := word[occ1 - 1] != word[occ2 + 1];
    } else {
      keep := true;
    }
  }

  /** tau_sequences: the subwords of the entries it keeps. */
  method TauSequences(word: seq<nat>) returns (tauSeqs: seq<seq<nat>>)
    requires IsDow(word)
    ensures AllFit(word, TauFound(word))
    ensures tauSeqs == Slices(word, TauFound(word))
  {
    var seqs := Sequences(word);
    ghost var found := Found(word);
    tauSeqs := [];
    for i := 0 to |seqs|
      invariant AllFit(word, found[..i]) && AllFit(word, TauFilter(word, found[..i]))
      invariant tauSeqs == Slices(word, TauFilter(word, found[..i]))
    {
      var sub := seqs[i];
      var keep := TauCheck(word, sub, found[i]);
      if keep {
        tauSeqs := tauSeqs + [sub];
      }
      TauFilterStep(word, found, i);
    }
    assert found[..|seqs|] == found;
  }

  // ---------------------------------------------------------------------------
  // The kept entries share no letter
  // ---------------------------------------------------------------------------

  lemma MateMate(w: seq<nat>, p: nat)
    requires IsDow(w) && p < |w|
    ensures Mate(w, Mate(w, p)) == p
  {
  }

  /** Two kept type-A entries holding the same pair of positions start at the same place. */
  lemma SharedReturns(w: seq<nat>, s: Span, t: Span, p1: nat, p2: nat)
    requires IsDow(w) && Entry(w, s) && Entry(w, t) && s.typeA && t.typeA
    requires Fits(w, s) && Fits(w, t) && TauKeeps(w, s) && TauKeeps(w, t)
    requires s.lo <= p1 < p2 < s.hi && t.lo <= p1 < p2 < t.hi && Mate(w, p1) == p2
    ensures s.lo == t.lo
  {
    EntryMate(w, s, p1);
    EntryMate(w, t, p1);
    if s.lo < t.lo {
      Widened(w, s, t);
      assert false;
    } else if t.lo < s.lo {
      Widened(w, t, s);
      assert false;
    }
  }

  /** A kept type-A entry strictly inside another with the same centre would not be kept. */
  lemma Widened(w: seq<nat>, s: Span, t: Span)
    requires IsDow(w) && Entry(w, s) && s.typeA && Fits(w, t)
    requires s.lo < t.lo && t.hi < s.hi && s.lo + s.hi == t.lo + t.hi
    ensures t.typeA ==> !TauKeeps(w, t)
  {
    EntryMate(w, s, t.lo - 1);
  }

  /** Two type-B entries holding the same pair of positions start at the same place. */
  lemma SharedRepeats(w: seq<nat>, s: Span, t: Span, p1: nat, p2: nat)
    requires IsDow(w) && Entry(w, s) && Entry(w, t) && !s.typeA && !t.typeA
    requires s.lo <= p1 < p2 < s.hi && t.lo <= p1 < p2 < t.hi && Mate(w, p1) == p2
    ensures s.lo == t.lo
  {
    RepeatsOrdered(w, s, t, p1, p2);
    RepeatsOrdered(w, t, s, p1, p2);
  }

  /** Of two type-B entries holding the same pair of positions, the first cannot start earlier. */
  lemma RepeatsOrdered(w: seq<nat>, s: Span, t: Span, p1: nat, p2: nat)
    requires IsDow(w) && Entry(w, s) && Entry(w, t) && !s.typeA && !t.typeA
    requires s.lo <= p1 < p2 < s.hi && t.lo <= p1 < p2 < t.hi && Mate(w, p1) == p2
    ensures t.lo <= s.lo
  {
    if s.lo < t.lo {
      EntryMate(w, s, p1);
      EntryMate(w, t, p1);
      var a := t.lo - 1;
      EntryMate(w, s, a);
      EntryMate(w, t, a + (p2 - p1));
      MateMate(w, a);
      assert false;
    }
  }

  /** Entries holding the same pair of positions have the same type. */
  lemma SharedTypes(w: seq<nat>, s: Span, t: Span, p1: nat, p2: nat)
    requires IsDow(w) && Entry(w, s) && Entry(w, t)
    requires s.lo <= p1 < p2 < s.hi && t.lo <= p1 < p2 < t.hi && Mate(w, p1) == p2
    ensures s.typeA == t.typeA
  {
    if s.typeA && !t.typeA {
      ReturnPair(w, s, p1, p2);
      RepeatPair(w, t, p1, p2);
      assert false;
    } else if t.typeA && !s.typeA {
      ReturnPair(w, t, p1, p2);
      RepeatPair(w, s, p1, p2);
      assert false;
    }
  }

  /** A pair of positions inside a type-A entry is an odd distance apart, and the positions just inside it are partners. */
  lemma ReturnPair(w: seq<nat>, s: Span, p1: nat, p2: nat)
    requires IsDow(w) && Entry(w, s) && s.typeA
    requires s.lo <= p1 < p2 < s.hi && Mate(w, p1) == p2
    ensures (p2 - p1) % 2 == 1
    ensures p1 + 1 < p2 ==> Mate(w, p1 + 1) == p2 - 1
  {
    EntryMate(w, s, p1);
    if p1 + 1 < p2 {
      EntryMate(w, s, p1 + 1);
    }
  }

  /** A pair of positions inside a type-B entry is at least two apart, and the next position is shifted by the same distance. */
  lemma RepeatPair(w: seq<nat>, t: Span, p1: nat, p2: nat)
    requires IsDow(w) && Entry(w, t) && !t.typeA
    requires t.lo <= p1 < p2 < t.hi && Mate(w, p1) == p2
    ensures p2 - p1 >= 2
    ensures Mate(w, p1 + 1) == p2 + 1 || Mate(w, p1 + 1) + (p2 - p1) == p1 + 1
  {
    EntryMate(w, t, p1);
    EntryMate(w, t, p1 + 1);
  }

  /** Kept entries that share a letter start at the same place. */
  lemma SharedLetter(w: seq<nat>, s: Span, t: Span, p: nat, r: nat)
    requires IsDow(w) && Entry(w, s) && Entry(w, t)
    requires Fits(w, s) && Fits(w, t) && TauKeeps(w, s) && TauKeeps(w, t)
    requires s.lo <= p < s.hi && t.lo <= r < t.hi && w[p] == w[r]
    ensures s.lo == t.lo
  {
    EntryMate(w, s, p);
    EntryMate(w, t, r);
    MateMate(w, p);
    var p1, p2 := if p < Mate(w, p) then p else Mate(w, p), if p < Mate(w, p) then Mate(w, p) else p;
    MateMate(w, p1);
    SharedTypes(w, s, t, p1, p2);
    if s.typeA {
      SharedReturns(w, s, t, p1, p2);
    } else {
      SharedRepeats(w, s, t, p1, p2);
    }
  }

  /** The kept entries are entries, kept, and start at distinct places. */
  lemma TauEntries(w: seq<nat>)
    requires IsDow(w)
    ensures Entries(w, TauFound(w)) && AllFit(w, TauFound(w)) && DistinctLo(TauFound(w))
    ensures forall k :: 0 <= k < |TauFound(w)| ==> TauKeeps(w, TauFound(w)[k])
  {
    FoundEntries(w);
    FoundDistinct(w);
    var found := Found(w);
    TauFilterSpec(w, found);
    var tau := TauFound(w);
    forall k | 0 <= k < |tau| ensures Entry(w, tau[k]) {
      var i :| 0 <= i < |found| && found[i] == tau[k];
    }
  }

  /**
   * The subwords tau_sequences returns share no letter, and each of their letters occurs
   * twice in the word: removing them one subword after another removes exactly their letters.
   */
  lemma TauDisjoint(w: seq<nat>)
    requires IsDow(w)
    ensures AllFit(w, TauFound(w))
    ensures var ts := Slices(w, TauFound(w));
      (forall k, x :: 0 <= k < |ts| && x in ts[k] ==> Count(w, x) == 2) &&
      (forall k, l, x :: 0 <= k < l < |ts| && x in ts[k] ==> x !in ts[l])
  {
    TauEntries(w);
    var tau := TauFound(w);
    var ts := Slices(w, tau);
    forall k, x | 0 <= k < |ts| && x in ts[k] ensures Count(w, x) == 2 {
      var i :| 0 <= i < |ts[k]| && ts[k][i] == x;
      assert w[tau[k].lo + i] == x;
    }
    forall k, l, x | 0 <= k < l < |ts| && x in ts[k] ensures x !in ts[l] {
      DisjointPair(w, tau, k, l, x);
    }
  }

  lemma DisjointPair(w: seq<nat>, tau: seq<Span>, k: nat, l: nat, x: nat)
    requires IsDow(w) && Entries(w, tau) && AllFit(w, tau) && DistinctLo(tau)
    requires forall k :: 0 <= k < |tau| ==> TauKeeps(w, tau[k])
    requires k < l < |tau| && x in w[tau[k].lo..tau[k].hi]
    ensures x !in w[tau[l].lo..tau[l].hi]
  {
    if x in w[tau[l].lo..tau[l].hi] {
      var i :| tau[k].lo <= i < tau[k].hi && w[i] == x;
      var j :| tau[l].lo <= j < tau[l].hi && w[j] == x;
      SharedLetter(w, tau[k], tau[l], i, j);
      assert false;
    }
  }

  /**
   * A type-A entry that does not touch an end of the word is kept exactly when it cannot be
   * widened by one letter on each side into another type-A entry.
   */
  lemma TauMaximal(w: seq<nat>, s: Span)
    requires Entry(w, s) && s.typeA && Fits(w, s) && 0 < s.lo && s.hi < |w|
    ensures TauKeeps(w, s) <==> !Entry(w, Span(s.lo - 1, s.hi + 1, true))
  {
    if w[s.lo - 1] == w[s.hi] {
      var o1, o2: nat := s.lo, s.hi - 1;
      var wider: nat := s.lo - 1;
      forall n | 0 <= n <= (s.hi - wider) / 2 ensures Mirror(w, wider, s.hi, n) {
        if n > 0 {
          assert Mirror(w, o1, o2, n - 1);
        }
      }
      assert ReturnAt(w, s.lo - 1, s.hi);
    }
  }
}
