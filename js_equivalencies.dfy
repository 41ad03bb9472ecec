/**
 * get_equivalencies of reductions.js: the relabelled rotations of a circular word, collected while
 * the word array itself is rotated in place, then freed of duplicates.
 */
module JsEquivalencies {
  import opened Dow
  import opened JsWords
  import CIsomorphisms

  /**
   * The list the rotation loop builds: entry i is the relabelled word after i + 1 moves of the
   * last letter to the front, that is, w rotated left by |w| - (i + 1).
   */
  function RotationList(w: seq<nat>): (r: seq<seq<nat>>)
    ensures |r| == |w|
  {
    seq(|w|, i requires 0 <= i < |w| => Canon(RotateLeft(w, |w| - (i + 1))))
  }

  /** What get_equivalencies returns: the rotation list, each word kept at its first occurrence. */
  function Equivalencies(w: seq<nat>): seq<seq<nat>>
  {
    Dedup(RotationList(w))
  }

  /** Moving the last letter to the front undoes one rotation to the left. */
  lemma RotateBack(w: seq<nat>, k: nat)
    requires 0 < k <= |w|
    ensures var v := RotateLeft(w, k);
      [v[|v| - 1]] + v[..|v| - 1] == RotateLeft(w, k - 1)
  {
    var v := RotateLeft(w, k);
    var u := [v[|v| - 1]] + v[..|v| - 1];
    assert |u| == |w|;
    forall i | 0 <= i < |w| ensures u[i] == RotateLeft(w, k - 1)[i] {
      if i > 0 {
        assert u[i] == v[i - 1];
      }
    }
  }

  /** word.unshift(word.pop()): the last letter moves to the front and the others shift one place right. */
  method MoveLastToFront(word: array<nat>)
    requires word.Length > 0
    modifies word
    ensures word[..] == [old(word[word.Length - 1])] + old(word[..word.Length - 1])
  {
    var last := word[word.Length - 1];
    var k := word.Length - 1;
    while k > 0
      invariant 0 <= k <= word.Length - 1
      invariant forall t :: k < t < word.Length ==> word[t] == old(word[t - 1])
      invariant forall t :: 0 <= t <= k ==> word[t] == old(word[t])
      decreases k
    {
      word[k] := word[k - 1];
      k := k - 1;
    }
    word[0] := last;
  }

  /** One pass of the rotation loop: move the last letter to the front, then relabel the word. */
  method RotateOnce(word: array<nat>, ghost w: seq<nat>, ghost k: nat) returns (relabelledWord: seq<nat>)
    requires IsDow(w) && 0 < k <= |w| && word[..] == RotateLeft(w, k)
    modifies word
    ensures word[..] == RotateLeft(w, k - 1)
    ensures relabelledWord == Canon(RotateLeft(w, k - 1))
  {
    MoveLastToFront(word);
    RotateBack(w, k);
    RotateDow(w, k - 1);
    relabelledWord := Relabel(word[..]);
  }

  /** The rotation loop of get_equivalencies: after |word| moves the word is back as it was. */
  method CollectRotations(word: array<nat>) returns (equivalencies: seq<seq<nat>>)
    requires IsDow(word[..])
    modifies word
    ensures word[..] == old(word[..])
    ensures equivalencies == RotationList(old(word[..]))
  {
    ghost var w := word[..];
    ghost var list := RotationList(w);
    RotateFull(w);
    equivalencies := [];
    for i := 0 to word.Length
      invariant word[..] == RotateLeft(w, |w| - i)
      invariant equivalencies == list[..i]
    {
      var relabelledWord := RotateOnce(word, w, |w| - i);
      RotationListSnoc(w, i);
      equivalencies := equivalencies + [relabelledWord];
    }
    assert list[..|w|] == list;
  }

  lemma RotationListSnoc(w: seq<nat>, i: nat)
    requires i < |w|
    ensures RotationList(w)[..i + 1] == RotationList(w)[..i] + [Canon(RotateLeft(w, |w| - (i + 1)))]
  {
    PrefixSnoc(RotationList(w), i);
  }

  /** The duplicate-removal loops: a later copy of an earlier word is spliced out. */
  method RemoveDuplicates(list: seq<seq<nat>>) returns (equivalencies: seq<seq<nat>>)
    ensures equivalencies == Dedup(list)
  {
    equivalencies := list;
    var i := 0;
    while i < |equivalencies|
      invariant i <= |equivalencies|
      invariant Dedup(equivalencies) == Dedup(list)
      invariant forall a, b :: 0 <= a < i && a < b < |equivalencies| ==> equivalencies[a] != equivalencies[b]
      decreases |equivalencies| - i
    {
      var j := i + 1;
      ghost var before := |equivalencies|;
      while j < |equivalencies|
        invariant i < j <= |equivalencies| <= before
        invariant Dedup(equivalencies) == Dedup(list)
        invariant forall a, b :: 0 <= a < i && a < b < |equivalencies| ==> equivalencies[a] != equivalencies[b]
        invariant forall b :: i < b < j ==> equivalencies[b] != equivalencies[i]
        decreases |equivalencies| - j
      {
        var same := Equal(equivalencies[i], equivalencies[j]);
        if same {
          assert equivalencies[j] in equivalencies[..j] by {
            assert equivalencies[..j][i] == equivalencies[i];
          }
          DedupRemoveLater(equivalencies, j);
          equivalencies := equivalencies[..j] + equivalencies[j + 1..];
          j := j - 1;
        }
        j := j + 1;
      }
      i := i + 1;
    }
    DedupNoDup(equivalencies);
  }

  /** get_equivalencies: the word array is rotated through a full turn and returned unchanged. */
  method GetEquivalencies(word: array<nat>) returns (equivalencies: seq<seq<nat>>)
    requires IsDow(word[..])
    modifies word
    ensures word[..] == old(word[..])
    ensures equivalencies == Equivalencies(old(word[..]))
  {
    equivalencies := CollectRotations(word);
    equivalencies := RemoveDuplicates(equivalencies);
  }

  // ---------------------------------------------------------------------------
  // What get_equivalencies returns
  // ---------------------------------------------------------------------------

  /** The equivalencies are distinct, and they are exactly the relabelled rotations of w. */
  lemma EquivalenciesSpec(w: seq<nat>)
    ensures NoDup(Equivalencies(w))
    ensures forall u :: u in Equivalencies(w) <==> exists k :: 0 <= k < |w| && u == Canon(RotateLeft(w, k))
  {
    var list := RotationList(w);
    DedupSpec(list);
    forall u ensures u in list <==> exists k :: 0 <= k < |w| && u == Canon(RotateLeft(w, k)) {
      if u in list {
        var i :| 0 <= i < |list| && list[i] == u;
        assert u == Canon(RotateLeft(w, |w| - (i + 1)));
      }
      if k :| 0 <= k < |w| && u == Canon(RotateLeft(w, k)) {
        assert list[|w| - 1 - k] == u;
      }
    }
  }

  /** Each equivalency is a canonical DOW as long as w. */
  lemma EquivalenciesShape(w: seq<nat>)
    requires IsDow(w)
    ensures forall k :: 0 <= k < |Equivalencies(w)| ==> Canonical(Equivalencies(w)[k]) && |Equivalencies(w)[k]| == |w|
  {
    EquivalenciesSpec(w);
    forall j | 0 <= j < |Equivalencies(w)| ensures Canonical(Equivalencies(w)[j]) && |Equivalencies(w)[j]| == |w| {
      assert Equivalencies(w)[j] in Equivalencies(w);
      var k :| 0 <= k < |w| && Equivalencies(w)[j] == Canon(RotateLeft(w, k));
      RotateDow(w, k);
      CanonicalOf(RotateLeft(w, k));
    }
  }

  /** The first equivalency is w with its last letter moved to the front, relabelled; w relabelled is among them. */
  lemma EquivalenciesFirst(w: seq<nat>)
    requires w != []
    ensures Equivalencies(w)[0] == Canon([w[|w| - 1]] + w[..|w| - 1])
    ensures Canon(w) in Equivalencies(w)
  {
    var list := RotationList(w);
    assert list[..1] == [list[0]];
    DedupPrefixLength(list, 0);
    DedupPrefix(list, 1);
    RotateFull(w);
    RotateBack(w, |w|);
    EquivalenciesSpec(w);
  }

  /** Rotating the word first does not change which words are equivalent to it. */
  lemma EquivalenciesRotation(w: seq<nat>, j: nat)
    requires j <= |w|
    ensures forall u :: u in Equivalencies(w) <==> u in Equivalencies(RotateLeft(w, j))
  {
    var v := RotateLeft(w, j);
    EquivalenciesSpec(w);
    EquivalenciesSpec(v);
    forall u ensures u in Equivalencies(w) ==> u in Equivalencies(v) {
      if u in Equivalencies(w) {
        var k :| 0 <= k < |w| && u == Canon(RotateLeft(w, k));
        var m := RotationFrom(w, j, k);
        assert u == Canon(RotateLeft(v, m));
      }
    }
    forall u ensures u in Equivalencies(v) ==> u in Equivalencies(w) {
      if u in Equivalencies(v) {
        var m :| 0 <= m < |v| && u == Canon(RotateLeft(v, m));
        var k := RotationOf(w, j, m);
        assert u == Canon(RotateLeft(w, k));
      }
    }
  }

  /** Each rotation of w is a rotation of w rotated by j. */
  lemma RotationFrom(w: seq<nat>, j: nat, k: nat) returns (m: nat)
    requires j <= |w| && k < |w|
    ensures m < |RotateLeft(w, j)| && RotateLeft(RotateLeft(w, j), m) == RotateLeft(w, k)
  {
    m := if k >= j then k - j else k + |w| - j;
    RotateCompose(w, j, m);
  }

  /** Each rotation of w rotated by j is a rotation of w. */
  lemma RotationOf(w: seq<nat>, j: nat, m: nat) returns (k: nat)
    requires j <= |w| && m < |RotateLeft(w, j)|
    ensures k < |w| && RotateLeft(RotateLeft(w, j), m) == RotateLeft(w, k)
  {
    RotateCompose(w, j, m);
    k := if j + m < |w| then j + m else j + m - |w|;
  }

  /** Two rotations to the left add up, modulo the length. */
  lemma RotateCompose(w: seq<nat>, j: nat, m: nat)
    requires j <= |w| && m < |w|
    ensures RotateLeft(RotateLeft(w, j), m) == RotateLeft(w, if j + m < |w| then j + m else j + m - |w|)
  {
  }

  /** The JavaScript equivalencies are among the C program's isomorphisms: its rotations without the reversals. */
  lemma EquivalenciesWithinIsomorphisms(w: seq<nat>)
    ensures forall u :: u in Equivalencies(w) ==> u in CIsomorphisms.Isomorphisms(w)
  {
    EquivalenciesSpec(w);
    CIsomorphisms.IsomorphismsComplete(w);
    forall u | u in Equivalencies(w) ensures u in CIsomorphisms.Isomorphisms(w) {
      var k :| 0 <= k < |w| && u == Canon(RotateLeft(w, k));
      assert u == CIsomorphisms.RotForm(w, k);
    }
  }
}
