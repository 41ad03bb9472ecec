// The cyclic equivalence class of a DOW in the C program (get_isomorphisms):
// the relabelled rotations of the word, then those of its relabelled reversal.

module CIsomorphisms {
  import opened Dow
  import opened CWords

  // ---------------------------------------------------------------------------
  // Rotations and their canonical forms
  // ---------------------------------------------------------------------------

  /** The relabelled rotation of base by k letters. */
  function RotForm(base: seq<nat>, k: nat): (r: seq<nat>)
    requires k <= |base|
    ensures |r| == |base|
  {
    Canon(RotateLeft(base, k))
  }

  /** The relabelled rotation of a word by one letter. */
  function Succ(c: seq<nat>): seq<nat>
  {
    if c == [] then [] else Canon(RotateLeft(c, 1))
  }

  lemma RotatePattern(u: seq<nat>, v: seq<nat>, k: nat)
    requires SamePattern(u, v) && k <= |u|
    ensures SamePattern(RotateLeft(u, k), RotateLeft(v, k))
  {
  }

  /** Rotating a relabelled rotation by one more letter gives the next relabelled rotation. */
  lemma RotFormSucc(base: seq<nat>, k: nat)
    requires k < |base|
    ensures Succ(RotForm(base, k)) == RotForm(base, k + 1)
  {
    var x := RotateLeft(base, k);
    var c := Canon(x);
    CanonPairs(x);
    RotatePattern(c, x, 1);
    CanonPattern(RotateLeft(c, 1), RotateLeft(x, 1));
    RotateTwice(base, k);
  }

  // ---------------------------------------------------------------------------
  // The two sweeps of get_isomorphisms
  // ---------------------------------------------------------------------------

  /** One while loop of get_isomorphisms: the relabelled rotations from offset on, stopping at the first already found. */
  function Sweep(base: seq<nat>, found: seq<seq<nat>>, offset: nat): seq<seq<nat>>
    requires offset <= |base|
    decreases |base| - offset
  {
    if offset == |base| then found
    else if RotForm(base, offset) in found then found
    else Sweep(base, found + [RotForm(base, offset)], offset + 1)
  }

  /** get_isomorphisms: the sweep of the rotations of w, then the sweep of the rotations of its relabelled reversal. */
  function Isomorphisms(w: seq<nat>): seq<seq<nat>>
  {
    Sweep(Canon(Reverse(w)), Sweep(w, [], 0), 0)
  }

  /** A sweep extends what was found by at most one word per remaining offset. */
  lemma {:induction false} SweepBound(base: seq<nat>, found: seq<seq<nat>>, offset: nat)
    requires offset <= |base|
    ensures |found| <= |Sweep(base, found, offset)| <= |found| + |base| - offset
    ensures Sweep(base, found, offset)[..|found|] == found
    decreases |base| - offset
  {
    if offset < |base| && RotForm(base, offset) !in found {
      var next := found + [RotForm(base, offset)];
      SweepBound(base, next, offset + 1);
      assert Sweep(base, found, offset)[..|next|][..|found|] == next[..|found|];
    }
  }

  /** A sweep adds only relabelled rotations of its base, and none twice. */
  lemma {:induction false} SweepSound(base: seq<nat>, found: seq<seq<nat>>, offset: nat)
    requires offset <= |base|
    ensures forall x :: x in Sweep(base, found, offset) ==>
      x in found || exists k :: offset <= k < |base| && x == RotForm(base, k)
    ensures NoDup(found) ==> NoDup(Sweep(base, found, offset))
    decreases |base| - offset
  {
    if offset < |base| && RotForm(base, offset) !in found {
      var next := found + [RotForm(base, offset)];
      SweepSound(base, next, offset + 1);
      if NoDup(found) {
        assert NoDup(next);
      }
    }
  }

  /** Every word found has its one-letter rotation found too. */
  predicate Closed(found: seq<seq<nat>>)
  {
    forall i :: 0 <= i < |found| ==> Succ(found[i]) in found
  }

  /**
   * A sweep leaves what it found closed under rotation: it only stops at the end of the rotations, whose next is the
   * first, or at a rotation already found.
   */
  lemma {:induction false} SweepCloses(base: seq<nat>, found: seq<seq<nat>>, offset: nat)
    requires 0 < |base| && offset <= |base|
    requires forall i :: 0 <= i < |found| ==> Succ(found[i]) in found || Succ(found[i]) == RotForm(base, offset)
    requires offset > 0 ==> RotForm(base, 0) in found
    ensures Closed(Sweep(base, found, offset)) && RotForm(base, 0) in Sweep(base, found, offset)
    decreases |base| - offset
  {
    if offset == |base| {
      RotateFull(base);
    } else if RotForm(base, offset) !in found {
      var c := RotForm(base, offset);
      var next := found + [c];
      RotFormSucc(base, offset);
      forall i | 0 <= i < |next| ensures Succ(next[i]) in next || Succ(next[i]) == RotForm(base, offset + 1) {
        if i < |found| {
          assert next[i] == found[i];
        }
      }
      SweepCloses(base, next, offset + 1);
    }
  }

  lemma {:induction false} OrbitIn(base: seq<nat>, found: seq<seq<nat>>, k: nat)
    requires k < |base| && Closed(found) && RotForm(base, 0) in found
    ensures RotForm(base, k) in found
  {
    if k > 0 {
      OrbitIn(base, found, k - 1);
      RotFormSucc(base, k - 1);
    }
  }

  /** get_isomorphisms lists each word once, starting with the relabelled w itself, and at most 2 |w| of them. */
  lemma IsomorphismsShape(w: seq<nat>)
    requires w != []
    ensures 0 < |Isomorphisms(w)| <= 2 * |w| && NoDup(Isomorphisms(w)) && Isomorphisms(w)[0] == Canon(w)
  {
    var rev := Canon(Reverse(w));
    var first := Sweep(w, [], 0);
    SweepBound(w, [], 0);
    SweepBound(rev, first, 0);
    SweepSound(w, [], 0);
    SweepSound(rev, first, 0);
    RotateFull(w);
    assert RotForm(w, 0) == Canon(w);
    assert [] + [Canon(w)] == [Canon(w)];
    assert first == Sweep(w, [Canon(w)], 1);
    SweepBound(w, [Canon(w)], 1);
    assert first[..1][0] == Canon(w);
    assert Sweep(rev, first, 0)[..|first|][0] == Sweep(rev, first, 0)[0];
  }

  /** get_isomorphisms lists only relabelled rotations of w and of its reversal. */
  lemma IsomorphismsSound(w: seq<nat>)
    ensures forall x :: x in Isomorphisms(w) ==>
      exists k :: 0 <= k < |w| && (x == RotForm(w, k) || x == RotForm(Canon(Reverse(w)), k))
  {
    SweepSound(w, [], 0);
    SweepSound(Canon(Reverse(w)), Sweep(w, [], 0), 0);
  }

  /** get_isomorphisms lists every relabelled rotation of w and of its reversal. */
  lemma IsomorphismsComplete(w: seq<nat>)
    ensures forall k :: 0 <= k < |w| ==> RotForm(w, k) in Isomorphisms(w) && RotForm(Canon(Reverse(w)), k) in Isomorphisms(w)
  {
    if w != [] {
      var rev := Canon(Reverse(w));
      var first := Sweep(w, [], 0);
      var all := Sweep(rev, first, 0);
      SweepBound(rev, first, 0);
      SweepCloses(w, [], 0);
      SweepCloses(rev, first, 0);
      forall k | 0 <= k < |w| ensures RotForm(w, k) in all && RotForm(rev, k) in all {
        OrbitIn(w, first, k);
        assert RotForm(w, k) in all[..|first|];
        OrbitIn(rev, all, k);
      }
    }
  }

  // ---------------------------------------------------------------------------
  // A word with more isomorphisms than letters
  // ---------------------------------------------------------------------------

  /** Words whose relabelled forms agree have equal letters at the same pairs of positions. */
  lemma CanonDiffer(u: seq<nat>, v: seq<nat>, i: nat, j: nat)
    requires |u| == |v| && i < |u| && j < |u| && u[i] == u[j] && v[i] != v[j]
    ensures Canon(u) != Canon(v)
  {
    CanonPairs(u);
    CanonPairs(v);
  }

  /** A sweep over rotations whose relabelled forms are all new and pairwise distinct keeps every one of them. */
  lemma {:induction false} SweepAllNew(base: seq<nat>, found: seq<seq<nat>>, offset: nat)
    requires offset <= |base|
    requires forall k :: offset <= k < |base| ==> RotForm(base, k) !in found
    requires forall j, k :: offset <= j < k < |base| ==> RotForm(base, j) != RotForm(base, k)
    ensures |Sweep(base, found, offset)| == |found| + |base| - offset
    decreases |base| - offset
  {
    if offset < |base| {
      SweepAllNew(base, found + [RotForm(base, offset)], offset + 1);
    }
  }

  /** Of the cyclically neighbouring letters of w, only the last and the first are equal. */
  predicate OneCyclicRepeat(w: seq<nat>)
  {
    0 < |w| && w[|w| - 1] == w[0] && forall p :: 0 <= p < |w| - 1 ==> w[p] != w[p + 1]
  }

  /** The relabelled rotations of such a word are pairwise distinct: rotation b alone has equal letters at n-1-b, n-b. */
  lemma RotationsDiffer(w: seq<nat>, a: nat, b: nat)
    requires OneCyclicRepeat(w) && a < b < |w|
    ensures RotForm(w, a) != RotForm(w, b)
  {
    var n := |w|;
    var u, v := RotateLeft(w, b), RotateLeft(w, a);
    assert u[n - 1 - b] == w[n - 1] && u[n - b] == w[0];
    assert v[n - 1 - b] == w[n - 1 - b + a] && v[n - b] == w[n - b + a];
    CanonDiffer(u, v, n - 1 - b, n - b);
  }

  /** If moreover w and its reversal differ at a pair (i, j), the reversal is none of the relabelled rotations. */
  lemma ReversalNew(w: seq<nat>, i: nat, j: nat, a: nat)
    requires OneCyclicRepeat(w) && i < |w| && j < |w| && w[i] == w[j] && w[|w| - 1 - i] != w[|w| - 1 - j]
    requires a < |w|
    ensures RotForm(Canon(Reverse(w)), 0) != RotForm(w, a)
  {
    var n := |w|;
    var rev := Canon(Reverse(w));
    RotateFull(rev);
    CanonIdempotent(Reverse(w));
    assert RotForm(rev, 0) == Canon(Reverse(w));
    var u := RotateLeft(w, a);
    if a == 0 {
      RotateFull(w);
      CanonDiffer(u, Reverse(w), i, j);
    } else {
      assert u[n - 1 - a] == w[n - 1] && u[n - a] == w[0];
      assert Reverse(w)[n - 1 - a] == w[a] && Reverse(w)[n - a] == w[a - 1];
      CanonDiffer(u, Reverse(w), n - 1 - a, n - a);
    }
  }

  /** Such a word has more isomorphisms than letters: all its rotations are new, and so is its reversal. */
  lemma IsomorphismsExceed(w: seq<nat>, i: nat, j: nat)
    requires OneCyclicRepeat(w) && i < |w| && j < |w| && w[i] == w[j] && w[|w| - 1 - i] != w[|w| - 1 - j]
    ensures |Isomorphisms(w)| > |w|
  {
    forall a, b | 0 <= a < b < |w| ensures RotForm(w, a) != RotForm(w, b) {
      RotationsDiffer(w, a, b);
    }
    SweepAllNew(w, [], 0);
    var first := Sweep(w, [], 0);
    var rev := Canon(Reverse(w));
    SweepSound(w, [], 0);
    forall a | 0 <= a < |w| ensures RotForm(rev, 0) != RotForm(w, a) {
      ReversalNew(w, i, j, a);
    }
    assert RotForm(rev, 0) !in first;
    SweepBound(rev, first + [RotForm(rev, 0)], 1);
  }

  lemma SampleDow(w: seq<nat>)
    requires w == [1, 2, 3, 4, 2, 4, 3, 1]
    ensures IsDow(w)
  {
    SampleLetters();
    TwiceEach(w, multiset{1, 2, 3, 4});
  }

  /** The letters of 1 2 3 4 2 4 3 1: two copies of 1, 2, 3 and 4. */
  lemma SampleLetters()
    ensures multiset([1, 2, 3, 4, 2, 4, 3, 1]) == multiset{1, 2, 3, 4} + multiset{1, 2, 3, 4}
    ensures forall x :: x in multiset{1, 2, 3, 4} ==> multiset{1, 2, 3, 4}[x] == 1
  {
    var w: seq<nat> := [1, 2, 3, 4, 2, 4, 3, 1];
    assert w == [1, 2, 3, 4] + [2, 4, 3, 1];
  }

  /** A word whose letters are two copies of a multiset without repetitions is a DOW. */
  lemma TwiceEach(w: seq<nat>, once: multiset<nat>)
    requires multiset(w) == once + once && forall x :: x in once ==> once[x] == 1
    ensures IsDow(w)
  {
    forall i | 0 <= i < |w| ensures Count(w, w[i]) == 2 {
      assert w[i] in multiset(w);
    }
  }

  lemma SampleRepeat(w: seq<nat>)
    requires w == [1, 2, 3, 4, 2, 4, 3, 1]
    ensures OneCyclicRepeat(w) && w[1] == w[4] && w[6] != w[3]
  {
    forall p | 0 <= p < 7 ensures w[p] != w[p + 1] {
      if p == 0 {
      } else if p == 1 {
      } else if p == 2 {
      } else if p == 3 {
      } else if p == 4 {
      } else if p == 5 {
      } else {
        assert p == 6;
      }
    }
  }

  /** 1 2 3 4 2 4 3 1 is a DOW of eight letters with more than eight isomorphisms. */
  lemma IsomorphismsOverflow(w: seq<nat>)
    requires w == [1, 2, 3, 4, 2, 4, 3, 1]
    ensures IsDow(w) && |Isomorphisms(w)| > |w|
  {
    SampleDow(w);
    SampleRepeat(w);
    IsomorphismsExceed(w, 1, 4);
  }

  // ---------------------------------------------------------------------------
  // The loops of get_isomorphisms
  // ---------------------------------------------------------------------------

  /** The two copy loops that rotate base into temp_word. */
  method Rotate(base: seq<nat>, offset: nat) returns (r: seq<nat>)
    requires offset <= |base|
    ensures r == RotateLeft(base, offset)
  {
    var size := |base|;
    var temp := new nat[size];
    for i := 0 to size - offset
      invariant forall k :: 0 <= k < i ==> temp[k] == base[k + offset]
    {
      temp[i] := base[i + offset];
    }
    for i := 0 to offset
      invariant forall k :: 0 <= k < size - offset ==> temp[k] == base[k + offset]
      invariant forall k :: 0 <= k < i ==> temp[size - offset + k] == base[k]
    {
      temp[size - offset + i] := base[i];
    }
    r := temp[..];
  }

  /** The memcmp loop: whether cand is among the first count entries. */
  method Contains(buf: array<seq<nat>>, count: nat, cand: seq<nat>) returns (isDup: bool)
    requires count <= buf.Length
    ensures isDup <==> cand in buf[..count]
  {
    isDup := false;
    var i := 0;
    while i < count && !isDup
      invariant 0 <= i <= count
      invariant isDup <==> cand in buf[..i]
    {
      assert buf[..i + 1] == buf[..i] + [buf[i]];
      isDup := buf[i] == cand;
      i := i + 1;
    }
    assert buf[..count] == buf[..i] + buf[i..count];
  }

  /**
   * One while loop of get_isomorphisms, appending after the first count0 entries of buf; overflow when the next
   * entry would not fit.
   */
  method SweepLoop(base: seq<nat>, buf: array<seq<nat>>, count0: nat) returns (count: nat, overflow: bool)
    requires IsDow(base) && count0 <= buf.Length
    modifies buf
    ensures !overflow ==> count <= buf.Length && buf[..count] == Sweep(base, old(buf[..count0]), 0)
    ensures overflow ==> |Sweep(base, old(buf[..count0]), 0)| > buf.Length
  {
    ghost var target := Sweep(base, buf[..count0], 0);
    count := count0;
    var offset := 0;
    var isDup := false;
    while offset < |base| && !isDup
      invariant offset <= |base| && count <= buf.Length
      invariant !isDup ==> Sweep(base, buf[..count], offset) == target
      invariant isDup ==> buf[..count] == target
      decreases |base| - offset, if isDup then 0 else 1
    {
      var temp := Rotate(base, offset);
      RotateDow(base, offset);
      temp := Relabel(temp);
      isDup := Contains(buf, count, temp);
      if !isDup {
        if count == buf.Length {
          SweepBound(base, buf[..count] + [temp], offset + 1);
          return count, true;
        }
        ghost var before := buf[..count];
        buf[count] := temp;
        assert buf[..count + 1] == before + [temp];
        count := count + 1;
        offset := offset + 1;
      }
    }
    overflow := false;
  }

  /** get_isomorphisms with room for both sweeps: 2 * size entries. */
  method GetIsomorphisms(word: seq<nat>) returns (isos: seq<seq<nat>>)
    requires IsDow(word)
    ensures isos == Isomorphisms(word)
  {
    var buf := new seq<nat>[2 * |word|];
    SweepBound(word, [], 0);
    assert buf[..0] == [];
    var count, overflow := SweepLoop(word, buf, 0);
    var reverse := GetReverse(word);
    SweepBound(reverse, Sweep(word, [], 0), 0);
    count, overflow := SweepLoop(reverse, buf, count);
    isos := buf[..count];
  }

  /** get_isomorphisms as written: room for size entries only; None where it would write past the array. */
  method GetIsomorphismsAsWritten(word: seq<nat>) returns (r: Option<seq<seq<nat>>>)
    requires IsDow(word)
    ensures r == if |Isomorphisms(word)| <= |word| then Some(Isomorphisms(word)) else None
  {
    var buf := new seq<nat>[|word|];
    SweepBound(word, [], 0);
    SweepBound(Canon(Reverse(word)), Sweep(word, [], 0), 0);
    assert buf[..0] == [];
    var count, overflow := SweepLoop(word, buf, 0);
    if overflow {
      return None;
    }
    var reverse := GetReverse(word);
    count, overflow := SweepLoop(reverse, buf, count);
    if overflow {
      return None;
    }
    r := Some(buf[..count]);
  }
}
