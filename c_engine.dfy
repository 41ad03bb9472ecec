// The nesting index of the C program: levels of words produced by step,
// deduplicated by copy_words, until some word of a level steps to the empty
// word (get_NI).

module CEngine {
  import opened Dow
  import opened CWords
  import opened CDetector
  import opened CReducer

  // ---------------------------------------------------------------------------
  // Levels of words
  // ---------------------------------------------------------------------------

  /** A level of get_NI: a non-empty list of non-empty DOWs. */
  predicate Level(ws: seq<seq<nat>>)
  {
    ws != [] && forall k :: 0 <= k < |ws| ==> IsDow(ws[k]) && 0 < |ws[k]|
  }

  predicate AllDow(ws: seq<seq<nat>>)
  {
    forall k :: 0 <= k < |ws| ==> IsDow(ws[k])
  }

  /** Total number of letters over a list of words (sizes_sum before halving). */
  function SumLen(ws: seq<seq<nat>>): nat
  {
    if ws == [] then 0 else SumLen(ws[..|ws| - 1]) + |ws[|ws| - 1]|
  }

  lemma {:induction false} SumLenPrefix(ws: seq<seq<nat>>, i: nat)
    requires i <= |ws|
    ensures SumLen(ws[..i]) <= SumLen(ws)
    decreases |ws| - i
  {
    if i < |ws| {
      SumLenPrefix(ws, i + 1);
      assert ws[..i + 1][..i] == ws[..i];
    } else {
      assert ws[..i] == ws;
    }
  }

  lemma SumLenSnoc(ws: seq<seq<nat>>, i: nat)
    requires i < |ws|
    ensures SumLen(ws[..i + 1]) == SumLen(ws[..i]) + |ws[i]|
  {
    assert ws[..i + 1][..i] == ws[..i];
  }

  /** The words of a list of step outcomes, in order; None as soon as one outcome is None. */
  function Gather<T>(os: seq<Option<seq<T>>>): Option<seq<T>>
  {
    if os == [] then Some([])
    else
      match Gather(os[..|os| - 1])
      case None => None
      case Some(a) => if os[|os| - 1].None? then None else Some(a + os[|os| - 1].value)
  }

  lemma GatherSnoc<T>(os: seq<Option<seq<T>>>, i: nat)
    requires i < |os|
    ensures Gather(os[..i + 1]) == if Gather(os[..i]).None? || os[i].None? then None else Some(Gather(os[..i]).value + os[i].value)
  {
    assert os[..i + 1][..i] == os[..i];
  }

  /** Gather fails exactly when one of the outcomes is None. */
  lemma {:induction false} GatherNone<T>(os: seq<Option<seq<T>>>)
    ensures Gather(os).None? <==> exists k :: 0 <= k < |os| && os[k].None?
  {
    if os != [] {
      var v := os[..|os| - 1];
      GatherNone(v);
      if Gather(v).None? {
        var k :| 0 <= k < |v| && v[k].None?;
        assert os[k] == v[k];
      }
      if exists k :: 0 <= k < |os| && os[k].None? {
        var k :| 0 <= k < |os| && os[k].None?;
        if k < |v| {
          assert os[k] == v[k];
        }
      }
    }
  }

  /** What step gives for each word of a level. */
  function Outcomes(ws: seq<seq<nat>>): (r: seq<Option<seq<seq<nat>>>>)
    requires AllDow(ws)
    ensures |r| == |ws| && forall k :: 0 <= k < |ws| ==> r[k] == StepSpec(ws[k])
  {
    seq(|ws|, k requires 0 <= k < |ws| => StepSpec(ws[k]))
  }

  /** One step of every word of a level, in order; None as soon as one of them steps to the empty word. */
  function StepAll(ws: seq<seq<nat>>): Option<seq<seq<nat>>>
    requires AllDow(ws)
  {
    Gather(Outcomes(ws))
  }

  /** A level stops the count exactly when one of its words steps to the empty word. */
  lemma StepAllNone(ws: seq<seq<nat>>)
    requires AllDow(ws)
    ensures StepAll(ws).None? <==> exists k :: 0 <= k < |ws| && StepSpec(ws[k]).None?
  {
    GatherNone(Outcomes(ws));
  }

  lemma {:induction false} GatherChildren(ws: seq<seq<nat>>, i: nat)
    requires AllDow(ws) && i <= |ws|
    ensures Gather(Outcomes(ws)[..i]).Some? ==>
      var next := Gather(Outcomes(ws)[..i]).value;
      |next| <= SumLen(ws[..i]) / 2 && i <= |next|
      && forall j :: 0 <= j < |next| ==> Canonical(next[j]) && 0 < |next[j]| && |next[j]| + 2 <= MaxLen(ws)
  {
    var os := Outcomes(ws);
    if i > 0 && Gather(os[..i]).Some? {
      GatherChildren(ws, i - 1);
      GatherSnoc(os, i - 1);
      var a := Gather(os[..i - 1]).value;
      assert i - 1 <= |a| && |a| <= SumLen(ws[..i - 1]) / 2;
      var u := ws[i - 1];
      StepChildren(u);
      MaxLenSpec(ws);
      assert ws[..i][..i - 1] == ws[..i - 1];
      assert os[i - 1] == StepSpec(u);
      var b := os[i - 1].value;
      assert Gather(os[..i]).value == a + b;
      assert 1 <= |b| <= |u| / 2;
      assert i <= |a + b|;
      assert |u| <= MaxLen(ws);
      ShorterAppend(a, b, MaxLen(ws));
      assert SumLen(ws[..i]) == SumLen(ws[..i - 1]) + |u|;
      HalfSum(SumLen(ws[..i - 1]), |u|);
    }
  }

  lemma HalfSum(m: nat, n: nat)
    ensures m / 2 + n / 2 <= (m + n) / 2
  {
  }

  /** Two lists of canonical non-empty words at least two letters under bound, joined. */
  lemma ShorterAppend(a: seq<seq<nat>>, b: seq<seq<nat>>, bound: nat)
    requires forall j :: 0 <= j < |a| ==> Canonical(a[j]) && 0 < |a[j]| && |a[j]| + 2 <= bound
    requires forall j :: 0 <= j < |b| ==> Canonical(b[j]) && 0 < |b[j]| && |b[j]| + 2 <= bound
    ensures forall j :: 0 <= j < |a + b| ==> Canonical((a + b)[j]) && 0 < |(a + b)[j]| && |(a + b)[j]| + 2 <= bound
  {
    forall j | 0 <= j < |a + b|
      ensures Canonical((a + b)[j]) && 0 < |(a + b)[j]| && |(a + b)[j]| + 2 <= bound
    {
      if j < |a| {
        assert (a + b)[j] == a[j];
      } else {
        assert (a + b)[j] == b[j - |a|];
      }
    }
  }

  /**
   * The words a level steps to: at most sizes_sum / 2 of them (the buffer get_NI allocates),
   * at least one per word, each a canonical DOW at least two letters shorter than the longest word of the level.
   */
  lemma StepAllChildren(ws: seq<seq<nat>>)
    requires AllDow(ws)
    ensures StepAll(ws).Some? ==>
      var next := StepAll(ws).value;
      |next| <= SumLen(ws) / 2 && |ws| <= |next|
      && forall j :: 0 <= j < |next| ==> Canonical(next[j]) && 0 < |next[j]| && |next[j]| + 2 <= MaxLen(ws)
  {
    GatherChildren(ws, |ws|);
    assert Outcomes(ws)[..|ws|] == Outcomes(ws);
    assert ws[..|ws|] == ws;
  }

  /** The next level, after copy_words, is again a level and its words are at least two letters shorter. */
  lemma NextLevel(ws: seq<seq<nat>>, next: seq<seq<nat>>)
    requires Level(ws) && StepAll(ws) == Some(next)
    ensures Level(Dedup(next)) && MaxLen(Dedup(next)) + 2 <= MaxLen(ws)
  {
    StepAllChildren(ws);
    var d := Dedup(next);
    DedupSpec(next);
    forall k | 0 <= k < |d| ensures Canonical(d[k]) && 0 < |d[k]| && |d[k]| + 2 <= MaxLen(ws) {
      assert d[k] in next;
    }
    assert next[0] in d;
    MaxLenLeast(d, MaxLen(ws) - 2);
  }

  /** The number of steps until some word of the level, or of a later level, steps to the empty word. */
  function NestFrom(ws: seq<seq<nat>>): nat
    requires Level(ws)
    decreases MaxLen(ws)
  {
    match StepAll(ws)
    case None => 1
    case Some(next) =>
      NextLevel(ws, next);
      1 + NestFrom(Dedup(next))
  }

  /** get_NI: -1 for a word that is not a DOW, 0 for the empty word, else the steps needed to reach the empty word. */
  function NestingIndex(w: seq<nat>): int
  {
    if !IsDow(w) then -1 else if w == [] then 0 else NestFrom([w])
  }

  /** Every level needs at least one more step and at most half as many as its longest word has letters. */
  lemma {:induction false} NestFromBounds(ws: seq<seq<nat>>)
    requires Level(ws)
    ensures 1 <= NestFrom(ws) <= MaxLen(ws) / 2
    decreases MaxLen(ws)
  {
    MaxLenSpec(ws);
    DowLength(ws[0]);
    match StepAll(ws)
    case None =>
    case Some(next) =>
      NextLevel(ws, next);
      NestFromBounds(Dedup(next));
  }

  lemma SingleLevel(w: seq<nat>)
    requires IsDow(w) && w != []
    ensures Level([w]) && StepAll([w]) == match StepSpec(w) case None => None case Some(b) => Some([] + b)
  {
    GatherSnoc(Outcomes([w]), 0);
    assert Outcomes([w])[..1] == Outcomes([w]);
    assert Outcomes([w])[..0] == [];
  }

  /** The range of get_NI: -1 exactly off the DOWs, 0 exactly for the empty word, else between 1 and |w| / 2. */
  lemma NestingIndexRange(w: seq<nat>)
    ensures NestingIndex(w) == -1 <==> !IsDow(w)
    ensures NestingIndex(w) == 0 <==> w == []
    ensures IsDow(w) && w != [] ==> 1 <= NestingIndex(w) <= |w| / 2
    ensures IsDow(w) && w != [] ==> (NestingIndex(w) == 1 <==> StepSpec(w).None?)
  {
    if IsDow(w) && w != [] {
      SingleLevel(w);
      NestFromBounds([w]);
      assert MaxLen([w]) == |w| by {
        assert [w][..0] == [];
      }
      if StepSpec(w).Some? {
        var next := StepSpec(w).value;
        assert [] + next == next;
        NextLevel([w], next);
        NestFromBounds(Dedup(next));
      }
    }
  }

  /** A DOW of at most four letters has nesting index 1. */
  lemma NestingIndexShort(w: seq<nat>)
    requires IsDow(w) && 0 < |w| <= 4
    ensures NestingIndex(w) == 1
  {
    NestingIndexRange(w);
  }

  // ---------------------------------------------------------------------------
  // copy_words and get_NI
  // ---------------------------------------------------------------------------

  /** copy_words: the words of source without duplicates, each at its first occurrence. */
  method CopyWords(source: seq<seq<nat>>) returns (dest: seq<seq<nat>>)
    ensures dest == Dedup(source)
  {
    var a := new seq<nat>[|source|];
    var ctr := 0;
    for i := 0 to |source|
      invariant ctr == |Dedup(source[..i])| <= i
      invariant a[..ctr] == Dedup(source[..i])
    {
      var isInDest := false;
      var j := 0;
      while j < ctr && !isInDest
        invariant 0 <= j <= ctr
        invariant isInDest <==> source[i] in a[..j]
      {
        assert a[..j + 1] == a[..j] + [a[j]];
        if |source[i]| == |a[j]| {
          isInDest := source[i] == a[j];
        }
        j := j + 1;
      }
      assert isInDest <==> source[i] in a[..ctr] by {
        assert a[..ctr] == a[..j] + a[j..ctr];
      }
      DedupPrefixLength(source, i);
      DedupMember(source[..i], source[i]);
      if !isInDest {
        a[ctr] := source[i];
        ctr := ctr + 1;
      }
    }
    assert source[..|source|] == source;
    dest := a[..ctr];
  }

  /** The memcpy of one step's words into the next level's buffer. */
  method Append(buf: array<seq<nat>>, count: nat, ws: seq<seq<nat>>)
    requires count + |ws| <= buf.Length
    modifies buf
    ensures buf[..count + |ws|] == old(buf[..count]) + ws
  {
    for k := 0 to |ws|
      invariant buf[..count + k] == old(buf[..count]) + ws[..k]
    {
      buf[count + k] := ws[k];
      assert ws[..k + 1] == ws[..k] + [ws[k]];
    }
    assert ws[..|ws|] == ws;
  }

  /** One pass of the loop of get_NI: every word steps, and their words fill a buffer of sizes_sum / 2 slots. */
  method StepLevel(current: seq<seq<nat>>) returns (next: Option<seq<seq<nat>>>)
    requires AllDow(current)
    ensures next == StepAll(current)
  {
    var sizesSum := SumSizes(current);
    sizesSum := sizesSum / 2;
    var nextWords := new seq<nat>[sizesSum];
    var nextCount: nat := 0;
    ghost var os := Outcomes(current);
    for i := 0 to |current|
      invariant nextCount <= SumLen(current[..i]) / 2
      invariant nextCount <= nextWords.Length
      invariant Gather(os[..i]) == Some(nextWords[..nextCount])
    {
      GatherSnoc(os, i);
      assert nextCount + |current[i]| / 2 <= SumLen(current[..i + 1]) / 2 <= nextWords.Length by {
        SumLenPrefix(current, i + 1);
        SumLenSnoc(current, i);
      }
      var ok, newCount := StepAppend(current[i], nextWords, nextCount, os[i]);
      if !ok {
        GatherNone(os);
        return None;
      }
      nextCount := newCount;
    }
    assert os[..|current|] == os;
    next := Some(nextWords[..nextCount]);
  }

  /** sizes_sum: the letters of a level, summed in a loop. */
  method SumSizes(current: seq<seq<nat>>) returns (total: nat)
    ensures total == SumLen(current)
  {
    total := 0;
    for i := 0 to |current|
      invariant total == SumLen(current[..i])
    {
      SumLenSnoc(current, i);
      total := total + |current[i]|;
    }
    assert current[..|current|] == current;
  }

  /** One word of the loop of get_NI: step it and append its words after the first count slots of buf. */
  method StepAppend(u: seq<nat>, buf: array<seq<nat>>, count: nat, ghost outcome: Option<seq<seq<nat>>>)
    returns (ok: bool, newCount: nat)
    requires IsDow(u) && outcome == StepSpec(u) && count + |u| / 2 <= buf.Length
    modifies buf
    ensures ok <==> outcome.Some?
    ensures ok ==> newCount == count + |outcome.value| <= count + |u| / 2
    ensures ok ==> buf[..newCount] == old(buf[..count]) + outcome.value
  {
    var stepWords := Step(u);
    if stepWords.None? {
      return false, count;
    }
    StepChildren(u);
    Append(buf, count, stepWords.value);
    ok, newCount := true, count + |stepWords.value|;
  }

  /** get_NI, with the corrected double occurrence test. */
  method GetNI(word: seq<nat>) returns (ni: int)
    ensures ni == NestingIndex(word)
  {
    var ok := CheckDow(word);
    if !ok {
      return -1;
    }
    if |word| == 0 {
      return 0;
    }
    var stepWords := Step(word);
    ni := 1;
    SingleLevel(word);
    if stepWords.None? {
      return;
    }
    assert [] + stepWords.value == stepWords.value;
    NextLevel([word], stepWords.value);
    var current := CopyWords(stepWords.value);
    while true
      invariant Level(current) && NestFrom([word]) == ni + NestFrom(current)
      decreases MaxLen(current)
    {
      ni := ni + 1;
      var next := StepLevel(current);
      if next.None? {
        return;
      }
      NextLevel(current, next.value);
      current := CopyWords(next.value);
    }
  }
}
