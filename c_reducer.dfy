// One reduction step of the C program: which letters lie in a maximal
// repeat or return word (is_in_seq), operation 1 (remove_seqs) and the list of
// words one step produces (step).

module CReducer {
  import opened Dow
  import opened CWords
  import opened CDetector

  // ---------------------------------------------------------------------------
  // The prefix that is_in_seq reads
  // ---------------------------------------------------------------------------

  /** Position t continues a strict ascent. */
  predicate Up(s: seq<nat>, t: int)
  {
    1 <= t < |s| && s[t - 1] < s[t]
  }

  /** The first position at or after j that does not continue the ascent, or |s|. */
  function AscentFrom(s: seq<nat>, j: nat): (r: nat)
    requires 1 <= j <= |s|
    ensures j <= r <= |s|
    decreases |s| - j
  {
    if j == |s| || s[j] <= s[j - 1] then j else AscentFrom(s, j + 1)
  }

  /** Length of the strictly increasing prefix of s: the do-while of is_in_seq reads s[0..Ascent(s)]. */
  function Ascent(s: seq<nat>): (r: nat)
    ensures r <= |s|
  {
    if s == [] then 0 else AscentFrom(s, 1)
  }

  /** The letters is_in_seq compares with. */
  function Front(s: seq<nat>): seq<nat>
  {
    s[..Ascent(s)]
  }

  /** The do-while stops inside s: it never reads the slot after the end. */
  predicate WellScanned(s: seq<nat>)
  {
    s != [] && Ascent(s) < |s|
  }

  lemma {:induction false} AscentFromSpec(s: seq<nat>, j: nat)
    requires 1 <= j <= |s|
    requires forall t :: 1 <= t < j ==> Up(s, t)
    ensures forall t :: 1 <= t < AscentFrom(s, j) ==> Up(s, t)
    ensures AscentFrom(s, j) < |s| ==> !Up(s, AscentFrom(s, j))
    decreases |s| - j
  {
    if j < |s| && s[j] > s[j - 1] {
      AscentFromSpec(s, j + 1);
    }
  }

  /** Ascent(s) is the first position that breaks the ascent. */
  lemma AscentSpec(s: seq<nat>)
    requires s != []
    ensures 1 <= Ascent(s)
    ensures forall t :: 1 <= t < Ascent(s) ==> Up(s, t)
    ensures Ascent(s) < |s| ==> !Up(s, Ascent(s))
  {
    AscentFromSpec(s, 1);
  }

  lemma {:induction false} AscentFromAt(s: seq<nat>, j: nat, k: nat)
    requires 1 <= j <= k < |s|
    requires forall t :: 1 <= t < k ==> Up(s, t)
    requires !Up(s, k)
    ensures AscentFrom(s, j) == k
    decreases k - j
  {
    if j < k {
      assert Up(s, j);
      AscentFromAt(s, j + 1, k);
    }
  }

  /** A prefix of length k that ascends and then breaks, and whose letters cover the rest, is read in full and suffices. */
  lemma FrontCovers(u: seq<nat>, k: nat)
    requires 1 <= k < |u|
    requires forall t :: 1 <= t < k ==> Up(u, t)
    requires !Up(u, k)
    requires forall t :: k <= t < |u| ==> u[t] in u[..k]
    ensures WellScanned(u) && Front(u) == u[..k]
    ensures forall x :: x in Front(u) <==> x in u
  {
    AscentFromAt(u, 1, k);
    forall x | x in u ensures x in u[..k] {
      var t :| 0 <= t < |u| && u[t] == x;
      if t < k {
        assert u[..k][t] == x;
      }
    }
  }

  lemma {:induction false} DescendValue(w: seq<nat>, lo: int, hi: int)
    requires Descends(w, lo, hi)
    ensures w[hi] + (hi - lo) == w[lo]
    decreases hi - lo
  {
    if lo < hi {
      DescendValue(w, lo, hi - 1);
      assert Fall(w, hi - 1);
    }
  }

  /** A return word a(a+1)..(a+m)(a+m)..(a+1)a is read up to its turn, and its first half holds all its letters. */
  lemma ReturnFront(w: seq<nat>, sp: Span)
    requires ReturnShaped(w, sp)
    ensures WellScanned(Slice(w, sp))
    ensures forall x :: x in Front(Slice(w, sp)) <==> x in Slice(w, sp)
  {
    var s, m := sp.start, sp.len / 2 - 1;
    var u := Slice(w, sp);
    var k := m + 1;
    assert u == w[s..s + sp.len];
    SliceAscent(w, s, k, u);
    assert !Up(u, k) by {
      assert u[k - 1] == w[s + m] && u[k] == w[s + m + 1];
    }
    forall t | k <= t < |u| ensures u[t] in u[..k] {
      ReturnMirror(w, sp, t - k);
    }
    FrontCovers(u, k);
  }

  /** The word u read from position s of w ascends over its first k letters where w climbs. */
  lemma SliceAscent(w: seq<nat>, s: nat, k: nat, u: seq<nat>)
    requires s + |u| <= |w| && u == w[s..s + |u|] && 1 <= k <= |u| && Climbs(w, s, s + k - 1)
    ensures forall t :: 1 <= t < k ==> Up(u, t)
  {
    forall t | 1 <= t < k ensures Up(u, t) {
      assert Rise(w, s + t - 1);
      assert u[t - 1] == w[s + t - 1] && u[t] == w[s + t];
    }
  }

  /** In a return word, the letter v places into the second half is the letter v places before its middle. */
  lemma ReturnMirror(w: seq<nat>, sp: Span, v: nat)
    requires ReturnShaped(w, sp) && v <= sp.len / 2 - 1
    ensures Slice(w, sp)[sp.len / 2 + v] in Slice(w, sp)[..sp.len / 2]
  {
    var s, m := sp.start, sp.len / 2 - 1;
    var u := Slice(w, sp);
    assert u == w[s..s + sp.len];
    assert Descends(w, s + m + 1, s + m + 1 + v);
    DescendValue(w, s + m + 1, s + m + 1 + v);
    assert Climbs(w, s, s + m - v);
    ClimbValue(w, s, s + m - v);
    ClimbValue(w, s, s + m);
    assert u[m + 1 + v] == w[s + m + 1 + v] && u[m - v] == w[s + m - v];
    assert u[m + 1 + v] == u[..m + 1][m - v];
  }

  /** A repeat word a(a+1)..(a+n)a(a+1)..(a+n) is read up to its second start, and its first half holds all its letters. */
  lemma RepeatFront(w: seq<nat>, sp: Span)
    requires RepeatShaped(w, sp)
    ensures WellScanned(Slice(w, sp))
    ensures forall x :: x in Front(Slice(w, sp)) <==> x in Slice(w, sp)
  {
    var s, n := sp.start, sp.len / 2 - 1;
    var u := Slice(w, sp);
    var k := n + 1;
    assert u == w[s..s + sp.len];
    SliceAscent(w, s, k, u);
    ClimbValue(w, s, s + n);
    assert !Up(u, k) by {
      assert u[k - 1] == w[s + n] && u[k] == w[s + n + 1];
    }
    forall t | k <= t < |u| ensures u[t] in u[..k] {
      RepeatCopy(w, sp, t - k);
    }
    FrontCovers(u, k);
  }

  /** In a repeat word, the letter v places into the second half is the letter v places into the first. */
  lemma RepeatCopy(w: seq<nat>, sp: Span, v: nat)
    requires RepeatShaped(w, sp) && v <= sp.len / 2 - 1
    ensures Slice(w, sp)[sp.len / 2 + v] in Slice(w, sp)[..sp.len / 2]
  {
    var s, n := sp.start, sp.len / 2 - 1;
    var u := Slice(w, sp);
    assert u == w[s..s + sp.len];
    assert Climbs(w, s + n + 1, s + n + 1 + v);
    ClimbValue(w, s + n + 1, s + n + 1 + v);
    assert Climbs(w, s, s + v);
    ClimbValue(w, s, s + v);
    assert u[n + 1 + v] == w[s + n + 1 + v] && u[v] == w[s + v];
    assert u[n + 1 + v] == u[..n + 1][v];
  }

  // ---------------------------------------------------------------------------
  // is_in_seq and remove_seqs
  // ---------------------------------------------------------------------------

  /** The letters is_in_seq finds in a list of subwords. */
  function Scanned(seqs: seq<seq<nat>>): set<nat>
  {
    set k, x | 0 <= k < |seqs| && x in Front(seqs[k]) :: x
  }

  /** For the subwords the detector reports, scanning the ascending prefix is plain membership. */
  lemma DetectedScanned(w: seq<nat>)
    ensures forall k :: 0 <= k < |Detected(w)| ==> WellScanned(Slices(w, Detected(w))[k])
    ensures Scanned(Slices(w, Detected(w))) == Letters(Slices(w, Detected(w)))
  {
    var spans := Detected(w);
    var seqs := Slices(w, spans);
    DetectedShapes(w);
    forall k | 0 <= k < |spans|
      ensures WellScanned(seqs[k]) && forall x :: x in Front(seqs[k]) <==> x in seqs[k]
    {
      if ReturnShaped(w, spans[k]) {
        ReturnFront(w, spans[k]);
      } else {
        RepeatFront(w, spans[k]);
      }
    }
  }

  method IsInSeq(letter: nat, seqs: seq<seq<nat>>) returns (found: bool)
    requires forall k :: 0 <= k < |seqs| ==> WellScanned(seqs[k])
    ensures found <==> letter in Scanned(seqs)
  {
    for i := 0 to |seqs|
      invariant forall k :: 0 <= k < i ==> letter !in Front(seqs[k])
    {
      var s := seqs[i];
      AscentSpec(s);
      var j := 0;
      var more := true;
      while more
        invariant 0 <= j <= Ascent(s)
        invariant more <==> j < Ascent(s)
        invariant letter !in s[..j]
        decreases Ascent(s) - j
      {
        if letter == s[j] {
          assert letter in Front(seqs[i]);
          return true;
        }
        assert s[..j + 1] == s[..j] + [s[j]];
        j := j + 1;
        assert WellScanned(seqs[i]);
        assert j < Ascent(s) ==> Up(s, j);
        more := s[j] > s[j - 1];
      }
    }
    return false;
  }

  method RemoveSeqs(word: seq<nat>, seqs: seq<seq<nat>>) returns (r: seq<nat>)
    requires forall k :: 0 <= k < |seqs| ==> WellScanned(seqs[k])
    ensures r == Keep(word, Scanned(seqs))
  {
    var a := new nat[|word|];
    var n := 0;
    for i := 0 to |word|
      invariant n <= i && a[..n] == Keep(word[..i], Scanned(seqs))
    {
      var inSeq := IsInSeq(word[i], seqs);
      KeepPrefix(word, Scanned(seqs), i);
      if !inSeq {
        a[n] := word[i];
        n := n + 1;
      }
    }
    assert word[..|word|] == word;
    r := a[..n];
  }

  // ---------------------------------------------------------------------------
  // step
  // ---------------------------------------------------------------------------

  /** Every letter of s occurs twice in w. */
  predicate TwiceIn(s: seq<nat>, w: seq<nat>)
  {
    forall k :: 0 <= k < |s| ==> Count(w, s[k]) == 2
  }

  lemma FreeTwice(w: seq<nat>, D: set<nat>)
    requires IsDow(w)
    ensures TwiceIn(Dedup(w), w) && TwiceIn(Keep(Dedup(w), D), w)
  {
    forall x | x in Dedup(w) ensures Count(w, x) == 2 {
      DedupMember(w, x);
      var i := IndexOf(w, x);
    }
    forall k | 0 <= k < |Keep(Dedup(w), D)| ensures Count(w, Keep(Dedup(w), D)[k]) == 2 {
      KeepMember(Dedup(w), D, Keep(Dedup(w), D)[k]);
    }
  }

  /** Operation 2 once per letter of drop: remove both occurrences of it, reversing what lies between, and relabel. */
  function Removals(w: seq<nat>, drop: seq<nat>): (r: seq<seq<nat>>)
    requires TwiceIn(drop, w)
    ensures |r| == |drop|
  {
    seq(|drop|, k requires 0 <= k < |drop| => Canon(RemovePairReversed(w, drop[k])))
  }

  /**
   * The words one step of the nesting index produces from the DOW w: None when w has four letters or fewer, or when
   * operation 1 removes every letter; otherwise, if w has maximal repeat or return words, the relabelled word left by
   * operation 1 and then one word per letter outside them, else one word per letter of w.
   */
  function StepSpec(w: seq<nat>): Option<seq<seq<nat>>>
    requires IsDow(w)
  {
    FreeTwice(w, Letters(Slices(w, Detected(w))));
    if |w| <= 4 then None
    else if Detected(w) == [] then Some(Removals(w, Dedup(w)))
    else
      var D := Letters(Slices(w, Detected(w)));
      if Keep(w, D) == [] then None
      else Some([Canon(Keep(w, D))] + Removals(w, Keep(Dedup(w), D)))
  }

  /** A detected subword holds at least one letter of w. */
  lemma DetectedLetter(w: seq<nat>) returns (x: nat)
    requires Detected(w) != []
    ensures x in w && x in Letters(Slices(w, Detected(w)))
  {
    DetectedShapes(w);
    var sp := Detected(w)[0];
    var seqs := Slices(w, Detected(w));
    var u := seqs[0];
    assert u == w[sp.start..sp.start + sp.len];
    x := u[0];
    assert x == w[sp.start];
    assert x in seqs[0];
  }

  /** Each removal is a canonical DOW exactly two letters shorter. */
  lemma RemovalsShape(w: seq<nat>, drop: seq<nat>)
    requires IsDow(w) && TwiceIn(drop, w)
    ensures forall k :: 0 <= k < |drop| ==> Canonical(Removals(w, drop)[k]) && |Removals(w, drop)[k]| == |w| - 2
  {
    forall k | 0 <= k < |drop| ensures Canonical(Removals(w, drop)[k]) {
      RemovePairDow(w, drop[k]);
      CanonicalOf(RemovePairReversed(w, drop[k]));
    }
  }

  /** With a detected subword, operation 1 removes at least one letter, and at most |w| / 2 - 1 letters stay free. */
  lemma FirstChildShape(w: seq<nat>)
    requires IsDow(w) && Detected(w) != []
    ensures var D := Letters(Slices(w, Detected(w)));
      Canonical(Canon(Keep(w, D))) && |Keep(w, D)| <= |w| - 2 && 1 + |Keep(Dedup(w), D)| <= |w| / 2
  {
    var D := Letters(Slices(w, Detected(w)));
    DowLength(w);
    var x := DetectedLetter(w);
    KeepShorter(w, D, x);
    var i := IndexOf(w, x);
    DedupMember(w, x);
    assert x in multiset(Dedup(w));
    KeepShorter(Dedup(w), D, x);
    KeepDow(w, D);
    CanonicalOf(Keep(w, D));
  }

  /** A word a step may produce from w: canonical, not empty, and at least two letters shorter. */
  predicate Smaller(u: seq<nat>, w: seq<nat>)
  {
    Canonical(u) && 0 < |u| <= |w| - 2
  }

  lemma ConsSmaller(first: seq<nat>, rs: seq<seq<nat>>, w: seq<nat>)
    requires Smaller(first, w) && forall k :: 0 <= k < |rs| ==> Smaller(rs[k], w)
    ensures forall k :: 0 <= k < |[first] + rs| ==> Smaller(([first] + rs)[k], w)
  {
    forall k | 0 <= k < |[first] + rs| ensures Smaller(([first] + rs)[k], w) {
      if k > 0 {
        assert ([first] + rs)[k] == rs[k - 1];
      }
    }
  }

  /** A step gives at least one and at most |w| / 2 words, and each is a canonical DOW at least two letters shorter than w. */
  lemma StepChildren(w: seq<nat>)
    requires IsDow(w)
    ensures StepSpec(w).Some? ==>
      var ws := StepSpec(w).value;
      1 <= |ws| <= |w| / 2 && forall k :: 0 <= k < |ws| ==> Smaller(ws[k], w)
  {
    if StepSpec(w).Some? {
      var D := Letters(Slices(w, Detected(w)));
      DowLength(w);
      FreeTwice(w, D);
      if Detected(w) == [] {
        RemovalsShape(w, Dedup(w));
      } else {
        var rs := Removals(w, Keep(Dedup(w), D));
        RemovalsShape(w, Keep(Dedup(w), D));
        FirstChildShape(w);
        ConsSmaller(Canon(Keep(w, D)), rs, w);
      }
    }
  }

  /** A step gives no words exactly when w is short or its repeat and return words cover every letter. */
  lemma StepNone(w: seq<nat>)
    requires IsDow(w)
    ensures StepSpec(w).None? <==>
      |w| <= 4 || (Detected(w) != [] && forall i :: 0 <= i < |w| ==> w[i] in Letters(Slices(w, Detected(w))))
  {
    var D := Letters(Slices(w, Detected(w)));
    if |w| > 4 && Detected(w) != [] {
      if Keep(w, D) == [] {
        forall i | 0 <= i < |w| ensures w[i] in D {
          KeepMember(w, D, w[i]);
        }
      } else {
        KeepMember(w, D, Keep(w, D)[0]);
      }
    }
  }

  /** The first word of a step holds exactly the letters the step also removes one by one, each twice. */
  lemma StepFirstChild(w: seq<nat>)
    requires IsDow(w) && Detected(w) != [] && StepSpec(w).Some?
    ensures var D := Letters(Slices(w, Detected(w)));
      |StepSpec(w).value| == 1 + |Keep(Dedup(w), D)|
      && StepSpec(w).value[0] == Canon(Keep(w, D))
      && forall x :: Count(Keep(w, D), x) == if x in Keep(Dedup(w), D) then 2 else 0
  {
    var D := Letters(Slices(w, Detected(w)));
    forall x ensures Count(Keep(w, D), x) == if x in Keep(Dedup(w), D) then 2 else 0 {
      KeepCount(w, D, x);
      KeepMember(Dedup(w), D, x);
      DedupMember(w, x);
      if x in w {
        var i := IndexOf(w, x);
      } else {
        assert x !in multiset(w);
      }
    }
  }

  /** The letters of the first half of letters that is_in_seq does not find, in order (the drop list of step). */
  method CollectFree(letters: seq<nat>, half: nat, seqs: seq<seq<nat>>, drop: array<nat>) returns (n: nat)
    requires half <= |letters| && half <= drop.Length
    requires forall k :: 0 <= k < |seqs| ==> WellScanned(seqs[k])
    modifies drop
    ensures n <= half && drop[..n] == Keep(letters[..half], Scanned(seqs))
  {
    n := 0;
    for i := 0 to half
      invariant n <= i && drop[..n] == Keep(letters[..i], Scanned(seqs))
    {
      var inSeq := IsInSeq(letters[i], seqs);
      KeepPrefix(letters, Scanned(seqs), i);
      if !inSeq {
        drop[n] := letters[i];
        n := n + 1;
      }
    }
  }

  lemma RemovalsSnoc(w: seq<nat>, drop: seq<nat>, n: nat)
    requires TwiceIn(drop, w) && n < |drop|
    ensures Removals(w, drop)[..n + 1] == Removals(w, drop)[..n] + [Canon(RemovePairReversed(w, drop[n]))]
  {
    PrefixSnoc(Removals(w, drop), n);
  }

  /** Fills out[start..] with the relabelled words left by removing each letter of drops. */
  method FillRemovals(word: seq<nat>, drops: seq<nat>, out: array<seq<nat>>, start: nat)
    requires IsDow(word) && TwiceIn(drops, word) && out.Length == start + |drops|
    modifies out
    ensures out[..] == old(out[..start]) + Removals(word, drops)
  {
    ghost var prefix, rs := out[..start], Removals(word, drops);
    var n := 0;
    for i := start to out.Length
      invariant n == i - start
      invariant out[..i] == prefix + rs[..n]
    {
      var removed := RemoveLtr(word, drops[n]);
      RemovePairDow(word, drops[n]);
      var relabelled := Relabel(removed);
      out[i] := relabelled;
      RemovalsSnoc(word, drops, n);
      n := n + 1;
    }
    assert rs[..n] == rs;
  }

  /** The drop list of step and the number of words it returns. */
  method DropList(word: seq<nat>, letters: seq<nat>, reductions: Option<seq<seq<nat>>>) returns (drops: seq<nat>, count: nat)
    requires IsDow(word) && |word| > 4 && letters == Dedup(word) + Zeros(|word| - |Dedup(word)|)
    requires reductions == if Detected(word) == [] then None else Some(Slices(word, Detected(word)))
    ensures drops == if reductions.Some? then Keep(Dedup(word), Letters(Slices(word, Detected(word)))) else Dedup(word)
    ensures count == |drops| + if reductions.Some? then 1 else 0
  {
    var size := |word|;
    DowLength(word);
    assert letters[..size / 2] == Dedup(word);
    DetectedScanned(word);
    var drop := new nat[size / 2];
    if reductions.Some? {
      var n := CollectFree(letters, size / 2, reductions.value, drop);
      count := n + 1;
      drops := drop[..n];
    } else {
      for i := 0 to size / 2
        invariant drop[..i] == letters[..i]
      {
        drop[i] := letters[i];
      }
      count := size / 2;
      drops := drop[..];
    }
  }

  /** The first word of step: operation 1 on word, relabelled. */
  method FirstChild(word: seq<nat>, seqs: seq<seq<nat>>) returns (rest: seq<nat>)
    requires IsDow(word) && seqs == Slices(word, Detected(word))
    ensures rest == Canon(Keep(word, Letters(seqs)))
  {
    DetectedScanned(word);
    rest := RemoveSeqs(word, seqs);
    KeepDow(word, Letters(seqs));
    rest := Relabel(rest);
  }

  method Step(word: seq<nat>) returns (r: Option<seq<seq<nat>>>)
    requires IsDow(word)
    ensures r == StepSpec(word)
  {
    var size := |word|;
    var letters := GetLetters(word);
    if size <= 4 {
      return None;
    }
    var reductions := GetRepeatReturnWords(word);
    var drops, count := DropList(word, letters, reductions);
    assert TwiceIn(drops, word) by {
      FreeTwice(word, Letters(Slices(word, Detected(word))));
    }
    var out := new seq<nat>[count];
    var start := 0;
    if reductions.Some? {
      var rest := FirstChild(word, reductions.value);
      if |rest| == 0 {
        assert Keep(word, Letters(reductions.value)) == [];
        return None;
      }
      out[0] := rest;
      start := 1;
    }
    ghost var first := out[..start];
    FillRemovals(word, drops, out, start);
    r := Some(out[..]);
    assert out[..] == first + Removals(word, drops);
    if reductions.Some? {
      assert first == [Canon(Keep(word, Letters(reductions.value)))];
    } else {
      assert first == [];
    }
  }
}
