/**
 * get_repeat_return_words of the C implementation: two state machines run
 * over the differences of consecutive letters. The first records loops and
 * return words (differences 1...1 0 -1...-1), the second repeat words
 * (differences 1...1 -n 1...1). Each recorded subword is a slice of the word,
 * copied into one of size/2 slots.
 */
module CDetector {
  import opened Dow

  /** A recorded subword: the slice starting at start, of length len. */
  datatype Span = Span(start: int, len: int)

  /** A state machine's variables state, place and count, and the spans recorded so far. */
  datatype Scan = Scan(state: int, place: int, count: int, spans: seq<Span>)

  /** The number of differences: size - 1, and none for the empty word. */
  function Steps(w: seq<nat>): nat
  {
    if |w| == 0 then 0 else |w| - 1
  }

  /** The slice of w a span denotes, or nothing when it does not fit. */
  function Slice(w: seq<nat>, sp: Span): seq<nat>
  {
    if 0 <= sp.start && 0 <= sp.len && sp.start + sp.len <= |w| then w[sp.start..sp.start + sp.len] else []
  }

  function Slices(w: seq<nat>, spans: seq<Span>): (r: seq<seq<nat>>)
    ensures |r| == |spans| && forall k :: 0 <= k < |spans| ==> r[k] == Slice(w, spans[k])
  {
    seq(|spans|, k requires 0 <= k < |spans| => Slice(w, spans[k]))
  }

  /** One step of the return-word machine on the difference at position i: the four arms of its switch. */
  function ReturnStep(w: seq<nat>, s: Scan, i: nat): Scan
    requires i + 1 < |w|
  {
    var d := w[i + 1] as int - w[i];
    var last := i == |w| - 2;
    if d == 0 then ReturnOnZero(s, i, last)
    else if d == 1 then ReturnOnOne(s, i)
    else if d == -1 then ReturnOnMinusOne(s, i, last)
    else ReturnOnOther(s, i)
  }

  /** Difference 0: from state 1 (not at the last difference) go to state 2, otherwise record the loop at i. */
  function ReturnOnZero(s: Scan, i: nat, last: bool): Scan
  {
    if s.state == 1 && !last then s.(state := 2)
    else Scan(0, s.place, 0, s.spans + [Span(i, 2)])
  }

  /** Difference 1: a climbing run starts or grows; in state 2 the pending return word is recorded first. */
  function ReturnOnOne(s: Scan, i: nat): Scan
  {
    if s.state == 0 then Scan(1, i, s.count + 1, s.spans)
    else if s.state == 2 then
      var p := s.place + s.count;
      Scan(1, i, 1, s.spans + [Span(p, i - p + 1)])
    else Scan(1, s.place, s.count + 1, s.spans)
  }

  /** Difference -1: in state 2 one owed letter is paid; the word is recorded when none is owed or at the last difference. */
  function ReturnOnMinusOne(s: Scan, i: nat, last: bool): Scan
  {
    if s.state == 2 then
      var c := s.count - 1;
      if c == 0 || last then
        var p := if last then s.place + c else s.place;
        Scan(0, p, 0, s.spans + [Span(p, i - p + 2)])
      else s.(count := c)
    else Scan(0, s.place, 0, s.spans)
  }

  /** Any other difference: in state 2 the pending return word is recorded; the machine resets. */
  function ReturnOnOther(s: Scan, i: nat): Scan
  {
    if s.state == 2 then
      var p := s.place + s.count;
      Scan(0, p, 0, s.spans + [Span(p, i - p + 1)])
    else Scan(0, s.place, 0, s.spans)
  }

  /** One step of the repeat-word machine on the difference at position i. */
  function RepeatStep(w: seq<nat>, s: Scan, i: nat): Scan
    requires i + 1 < |w|
  {
    var d := w[i + 1] as int - w[i];
    if d == 1 then
      if s.state == 0 then Scan(1, i, s.count + 1, s.spans)
      else if s.state == 1 then s.(count := s.count + 1)
      else if s.state == 2 then
        var c := s.count - 1;
        if c == 0 then Scan(0, s.place, 0, s.spans + [Span(s.place, i - s.place + 2)])
        else s.(count := c)
      else s
    else if s.state == 1 && d < 0 && -s.count <= d then
      Scan(2, s.place + s.count + d, -d, s.spans)
    else Scan(0, s.place, 0, s.spans)
  }

  /** The return-word machine after the first n differences. */
  function ReturnFold(w: seq<nat>, n: nat): Scan
    requires n <= Steps(w)
  {
    if n == 0 then Scan(0, 0, 0, []) else ReturnStep(w, ReturnFold(w, n - 1), n - 1)
  }

  /** The repeat-word machine after the first n differences. */
  function RepeatFold(w: seq<nat>, n: nat): Scan
    requires n <= Steps(w)
  {
    if n == 0 then Scan(0, 0, 0, []) else RepeatStep(w, RepeatFold(w, n - 1), n - 1)
  }

  /** Everything get_repeat_return_words records: the return scan's spans, then the repeat scan's. */
  function Detected(w: seq<nat>): seq<Span>
  {
    ReturnFold(w, Steps(w)).spans + RepeatFold(w, Steps(w)).spans
  }

  // ---------------------------------------------------------------------------
  // Shapes of the recorded subwords
  // ---------------------------------------------------------------------------

  /** The difference at position t is 1. */
  predicate Rise(w: seq<nat>, t: int)
  {
    0 <= t && t + 1 < |w| && w[t + 1] == w[t] + 1
  }

  /** The difference at position t is -1. */
  predicate Fall(w: seq<nat>, t: int)
  {
    0 <= t && t + 1 < |w| && w[t] == w[t + 1] + 1
  }

  /** The differences at positions lo .. hi-1 are all 1. */
  predicate Climbs(w: seq<nat>, lo: int, hi: int)
  {
    0 <= lo <= hi < |w| && forall t :: lo <= t < hi ==> Rise(w, t)
  }

  /** The differences at positions lo .. hi-1 are all -1. */
  predicate Descends(w: seq<nat>, lo: int, hi: int)
  {
    0 <= lo <= hi < |w| && forall t :: lo <= t < hi ==> Fall(w, t)
  }

  /** A loop (m = 0) or a return word: differences m ones, one 0, m minus-ones. */
  predicate ReturnShaped(w: seq<nat>, sp: Span)
  {
    var s, m := sp.start, sp.len / 2 - 1;
    0 <= s && sp.len >= 2 && sp.len % 2 == 0 && s + sp.len <= |w|
    && Climbs(w, s, s + m) && w[s + m + 1] == w[s + m] && Descends(w, s + m + 1, s + 2 * m + 1)
  }

  /** A repeat word u u, where u climbs by 1 and has length n + 1 >= 2. */
  predicate RepeatShaped(w: seq<nat>, sp: Span)
  {
    var s, n := sp.start, sp.len / 2 - 1;
    0 <= s && sp.len >= 4 && sp.len % 2 == 0 && s + sp.len <= |w|
    && Climbs(w, s, s + n) && w[s + n + 1] == w[s] && Climbs(w, s + n + 1, s + 2 * n + 1)
  }

  lemma {:induction false} ClimbValue(w: seq<nat>, lo: int, hi: int)
    requires Climbs(w, lo, hi)
    ensures w[hi] == w[lo] + (hi - lo)
    decreases hi - lo
  {
    if lo < hi {
      ClimbValue(w, lo, hi - 1);
      assert Rise(w, hi - 1);
    }
  }

  // ---------------------------------------------------------------------------
  // Counting the events that make the machines record
  // ---------------------------------------------------------------------------

  /** Positions z < n whose difference is 0. */
  function ZeroCount(w: seq<nat>, n: nat): nat
    requires n <= Steps(w)
  {
    if n == 0 then 0 else ZeroCount(w, n - 1) + if w[n] == w[n - 1] then 1 else 0
  }

  /** Positions z < n whose difference is negative and lands on a letter already seen. */
  function DropCount(w: seq<nat>, n: nat): nat
    requires n <= Steps(w)
  {
    if n == 0 then 0 else DropCount(w, n - 1) + if w[n] < w[n - 1] && w[n] in w[..n] then 1 else 0
  }

  /** Both kinds of event sit at a position holding a repeated letter, so together they are at most the number of such positions. */
  lemma {:induction false} EventsBound(w: seq<nat>, n: nat)
    requires |w| > 0 && n <= Steps(w)
    ensures ZeroCount(w, n) + DropCount(w, n) <= n + 1 - |Dedup(w[..n + 1])|
  {
    DedupPrefixLength(w, n);
    if n == 0 {
      assert w[..0] == [];
    } else {
      EventsBound(w, n - 1);
      EventAt(w, n);
    }
  }

  /** At most one event at position n, and only when its letter was seen before. */
  lemma EventAt(w: seq<nat>, n: nat)
    requires 0 < n < |w|
    ensures (if w[n] == w[n - 1] then 1 else 0) + (if w[n] < w[n - 1] && w[n] in w[..n] then 1 else 0)
      <= if w[n] in w[..n] then 1 else 0
  {
    if w[n] == w[n - 1] {
      assert w[..n][n - 1] == w[n];
    }
  }

  lemma {:induction false} ZeroCountMono(w: seq<nat>, i: nat, n: nat)
    requires i <= n <= Steps(w)
    ensures ZeroCount(w, i) <= ZeroCount(w, n)
    decreases n - i
  {
    if i < n {
      ZeroCountMono(w, i, n - 1);
    }
  }

  lemma {:induction false} DropCountMono(w: seq<nat>, i: nat, n: nat)
    requires i <= n <= Steps(w)
    ensures DropCount(w, i) <= DropCount(w, n)
    decreases n - i
  {
    if i < n {
      DropCountMono(w, i, n - 1);
    }
  }

  /** In a DOW there are at most size/2 events in all. */
  lemma {:induction false} EventsDow(w: seq<nat>)
    requires IsDow(w)
    ensures ZeroCount(w, Steps(w)) + DropCount(w, Steps(w)) <= |w| / 2
  {
    DowLength(w);
    if |w| > 0 {
      EventsBound(w, Steps(w));
      assert w[..Steps(w) + 1] == w;
    }
  }

  // ---------------------------------------------------------------------------
  // The return-word machine
  // ---------------------------------------------------------------------------

  /**
   * State 2 after the first i differences: a climbing run from place, a 0 at z,
   * then k minus-ones, where count = (number of ones) - k is still owed.
   */
  predicate ReturnPending(w: seq<nat>, s: Scan, i: nat)
  {
    var k := (i - s.place - s.count - 1) / 2;
    var z := s.place + s.count + k;
    s.count >= 1 && i - s.place - s.count >= 1 && (i - s.place - s.count) % 2 == 1
    && Climbs(w, s.place, z) && z + 1 <= i < |w| && w[z + 1] == w[z] && Descends(w, z + 1, i)
  }

  predicate AllReturnShaped(w: seq<nat>, spans: seq<Span>)
  {
    forall k :: 0 <= k < |spans| ==> ReturnShaped(w, spans[k])
  }

  lemma {:induction false} ReturnShapedSnoc(w: seq<nat>, spans: seq<Span>, sp: Span)
    requires AllReturnShaped(w, spans) && ReturnShaped(w, sp)
    ensures AllReturnShaped(w, spans + [sp])
  {
  }

  /** What holds of the return-word machine after the first i differences. */
  predicate ReturnInv(w: seq<nat>, s: Scan, i: nat)
    requires i <= Steps(w)
  {
    AllReturnShaped(w, s.spans)
    && 0 <= s.state <= 2 && s.place >= 0
    && (s.state == 0 ==> s.count == 0)
    && (s.state == 1 ==> s.count >= 1 && s.place + s.count == i && Climbs(w, s.place, i))
    && (s.state == 2 ==> ReturnPending(w, s, i))
    && |s.spans| + (if s.state == 2 then 1 else 0) <= ZeroCount(w, i)
  }

  lemma {:induction false} ClimbsFrom(w: seq<nat>, lo: int, hi: int, lo2: int)
    requires Climbs(w, lo, hi) && lo <= lo2 <= hi
    ensures Climbs(w, lo2, hi)
  {
  }

  lemma {:induction false} ClimbsSnoc(w: seq<nat>, lo: int, hi: int)
    requires Climbs(w, lo, hi) && hi + 1 < |w| && w[hi + 1] == w[hi] + 1
    ensures Climbs(w, lo, hi + 1)
  {
  }

  lemma {:induction false} DescendsSnoc(w: seq<nat>, lo: int, hi: int)
    requires Descends(w, lo, hi) && hi + 1 < |w| && w[hi] == w[hi + 1] + 1
    ensures Descends(w, lo, hi + 1)
  {
  }

  /** A climb of k ones, a 0 and a descent of k minus-ones form a return word of length 2k+2. */
  lemma {:induction false} ReturnClose(w: seq<nat>, s0: int, k: nat)
    requires Climbs(w, s0, s0 + k) && s0 + 2 * k + 2 <= |w| && w[s0 + k + 1] == w[s0 + k]
    requires Descends(w, s0 + k + 1, s0 + 2 * k + 1)
    ensures ReturnShaped(w, Span(s0, 2 * k + 2))
  {
    assert (2 * k + 2) / 2 - 1 == k;
  }

  /** State 2 spelled out: k minus-ones after the 0 at z = place + count + k. */
  lemma {:induction false} PendingParts(w: seq<nat>, s: Scan, i: nat) returns (k: nat)
    requires ReturnPending(w, s, i)
    ensures i == s.place + s.count + 2 * k + 1 && s.count >= 1
    ensures Climbs(w, s.place, s.place + s.count + k) && Descends(w, s.place + s.count + k + 1, i)
    ensures w[s.place + s.count + k + 1] == w[s.place + s.count + k]
  {
    k := (i - s.place - s.count - 1) / 2;
  }

  /** In state 2 a difference other than 0 and -1 closes the pending return word. */
  lemma {:induction false} ReturnCloseEarly(w: seq<nat>, p: int, c: int, k: nat, i: nat)
    requires i < Steps(w) && i == p + c + 2 * k + 1 && c >= 1
    requires Climbs(w, p, p + c + k) && Descends(w, p + c + k + 1, i) && w[p + c + k + 1] == w[p + c + k]
    ensures ReturnShaped(w, Span(p + c, i - (p + c) + 1))
  {
    ClimbsFrom(w, p, p + c + k, p + c);
    ReturnClose(w, p + c, k);
  }

  /** In state 2 a -1 that pays the last owed one, or comes at the last difference, closes the return word one letter wider. */
  lemma {:induction false} ReturnCloseLate(w: seq<nat>, p: int, c: int, k: nat, i: nat)
    requires i < Steps(w) && i == p + c + 2 * k + 1 && c >= 1
    requires Climbs(w, p, p + c + k) && Descends(w, p + c + k + 1, i) && w[p + c + k + 1] == w[p + c + k]
    requires w[i] == w[i + 1] + 1
    ensures ReturnShaped(w, Span(p + c - 1, i - (p + c - 1) + 2))
  {
    ClimbsFrom(w, p, p + c + k, p + c - 1);
    DescendsSnoc(w, p + c + k + 1, i);
    ReturnClose(w, p + c - 1, k + 1);
  }

  /** In state 2 a -1 that leaves ones owed keeps the machine in state 2. */
  lemma {:induction false} ReturnContinue(w: seq<nat>, s: Scan, k: nat, i: nat)
    requires i < Steps(w) && i == s.place + s.count + 2 * k + 1 && s.count >= 2
    requires Climbs(w, s.place, s.place + s.count + k) && Descends(w, s.place + s.count + k + 1, i)
    requires w[s.place + s.count + k + 1] == w[s.place + s.count + k] && w[i] == w[i + 1] + 1
    ensures ReturnPending(w, s.(count := s.count - 1), i + 1)
  {
    assert (i + 1 - s.place - (s.count - 1) - 1) / 2 == k + 1;
    DescendsSnoc(w, s.place + s.count + k + 1, i);
  }

  /** From state 1 a 0 that is not the last difference starts state 2. */
  lemma {:induction false} ReturnTurn(w: seq<nat>, s: Scan, i: nat)
    requires i < Steps(w) && s.count >= 1 && s.place + s.count == i && Climbs(w, s.place, i) && w[i + 1] == w[i]
    ensures ReturnPending(w, s.(state := 2), i + 1)
  {
  }

  lemma {:induction false} ZeroCountStep(w: seq<nat>, i: nat)
    requires i < Steps(w)
    ensures ZeroCount(w, i + 1) == ZeroCount(w, i) + if w[i + 1] == w[i] then 1 else 0
  {
  }

  /** The step on a 0 difference. */
  lemma {:induction false} ReturnZeroInv(w: seq<nat>, s: Scan, i: nat)
    requires i < Steps(w) && ReturnInv(w, s, i) && w[i + 1] == w[i]
    ensures ReturnInv(w, ReturnStep(w, s, i), i + 1)
  {
    ZeroCountStep(w, i);
    if s.state == 1 && i != |w| - 2 {
      ReturnTurn(w, s, i);
      assert ReturnStep(w, s, i) == s.(state := 2);
    } else {
      ReturnClose(w, i, 0);
      ReturnShapedSnoc(w, s.spans, Span(i, 2));
      assert ReturnStep(w, s, i) == Scan(0, s.place, 0, s.spans + [Span(i, 2)]);
    }
  }

  /** The step on a nonzero difference in state 2. */
  lemma {:induction false} ReturnPendingInv(w: seq<nat>, s: Scan, i: nat)
    requires i < Steps(w) && ReturnInv(w, s, i) && w[i + 1] != w[i] && s.state == 2
    ensures ReturnInv(w, ReturnStep(w, s, i), i + 1)
  {
    ZeroCountStep(w, i);
    var p, c := s.place, s.count;
    var k := PendingParts(w, s, i);
    if w[i] == w[i + 1] + 1 {
      if c - 1 == 0 || i == |w| - 2 {
        ReturnCloseSnoc(w, s, k, i);
      } else {
        ReturnContinue(w, s, k, i);
        assert ReturnStep(w, s, i) == s.(count := c - 1);
      }
    } else {
      ReturnCloseEarly(w, p, c, k, i);
      ReturnShapedSnoc(w, s.spans, Span(p + c, i - (p + c) + 1));
      var t := ReturnStep(w, s, i);
      assert t.spans == s.spans + [Span(p + c, i - (p + c) + 1)];
      assert t.state == 0 ==> t.count == 0;
      assert t.state == 1 ==> t.place == i && t.count == 1 && w[i + 1] == w[i] + 1;
    }
  }

  lemma {:induction false} ReturnCloseSnoc(w: seq<nat>, s: Scan, k: nat, i: nat)
    requires i < Steps(w) && s.state == 2 && w[i] == w[i + 1] + 1
    requires AllReturnShaped(w, s.spans) && |s.spans| + 1 <= ZeroCount(w, i)
    requires s.count - 1 == 0 || i == |w| - 2
    requires i == s.place + s.count + 2 * k + 1 && s.count >= 1
    requires Climbs(w, s.place, s.place + s.count + k) && Descends(w, s.place + s.count + k + 1, i)
    requires w[s.place + s.count + k + 1] == w[s.place + s.count + k]
    ensures ReturnInv(w, ReturnStep(w, s, i), i + 1)
  {
    var q := s.place + s.count - 1;
    var sp := Span(q, i - q + 2);
    assert AllReturnShaped(w, s.spans + [sp]) by {
      ReturnCloseLate(w, s.place, s.count, k, i);
      ReturnShapedSnoc(w, s.spans, sp);
    }
    assert |s.spans + [sp]| <= ZeroCount(w, i + 1) by {
      ZeroCountStep(w, i);
    }
    assert ReturnStep(w, s, i) == Scan(0, q, 0, s.spans + [sp]);
  }

  /** The step on a nonzero difference in state 0 or 1. */
  lemma {:induction false} ReturnIdleInv(w: seq<nat>, s: Scan, i: nat)
    requires i < Steps(w) && ReturnInv(w, s, i) && w[i + 1] != w[i] && s.state != 2
    ensures ReturnInv(w, ReturnStep(w, s, i), i + 1)
  {
    ZeroCountStep(w, i);
    if w[i + 1] == w[i] + 1 && s.state == 1 {
      ClimbsSnoc(w, s.place, i);
    }
  }

  lemma {:induction false} ReturnStepInv(w: seq<nat>, s: Scan, i: nat)
    requires i < Steps(w) && ReturnInv(w, s, i)
    ensures ReturnInv(w, ReturnStep(w, s, i), i + 1)
  {
    if w[i + 1] == w[i] {
      ReturnZeroInv(w, s, i);
    } else if s.state == 2 {
      ReturnPendingInv(w, s, i);
    } else {
      ReturnIdleInv(w, s, i);
    }
  }

  lemma {:induction false} ReturnFoldInv(w: seq<nat>, n: nat)
    requires n <= Steps(w)
    ensures ReturnInv(w, ReturnFold(w, n), n)
  {
    if n > 0 {
      ReturnFoldInv(w, n - 1);
      ReturnStepInv(w, ReturnFold(w, n - 1), n - 1);
    }
  }

  // ---------------------------------------------------------------------------
  // The repeat-word machine
  // ---------------------------------------------------------------------------

  /**
   * State 2 after the first i differences: a climbing run from place to z, a
   * drop at z back to the letter at place, then j ones, where count = n - j of
   * the n = z - place ones are still owed.
   */
  predicate RepeatPending(w: seq<nat>, s: Scan, i: nat)
  {
    var j := (i - s.place - s.count - 1) / 2;
    var z := s.place + s.count + j;
    s.count >= 1 && i - s.place - s.count - 1 >= 0 && (i - s.place - s.count - 1) % 2 == 0
    && Climbs(w, s.place, z) && z + 1 <= i < |w| && w[z + 1] == w[s.place] && Climbs(w, z + 1, i)
  }

  predicate AllRepeatShaped(w: seq<nat>, spans: seq<Span>)
  {
    forall k :: 0 <= k < |spans| ==> RepeatShaped(w, spans[k])
  }

  lemma {:induction false} RepeatShapedSnoc(w: seq<nat>, spans: seq<Span>, sp: Span)
    requires AllRepeatShaped(w, spans) && RepeatShaped(w, sp)
    ensures AllRepeatShaped(w, spans + [sp])
  {
  }

  /** What holds of the repeat-word machine after the first i differences. */
  predicate RepeatInv(w: seq<nat>, s: Scan, i: nat)
    requires i <= Steps(w)
  {
    AllRepeatShaped(w, s.spans)
    && 0 <= s.state <= 2 && s.place >= 0
    && (s.state == 0 ==> s.count == 0)
    && (s.state == 1 ==> s.count >= 1 && s.place + s.count == i && Climbs(w, s.place, i))
    && (s.state == 2 ==> RepeatPending(w, s, i))
    && |s.spans| + (if s.state == 2 then 1 else 0) <= DropCount(w, i)
  }

  lemma {:induction false} DropCountStep(w: seq<nat>, i: nat)
    requires i < Steps(w)
    ensures DropCount(w, i + 1) == DropCount(w, i) + if w[i + 1] < w[i] && w[i + 1] in w[..i + 1] then 1 else 0
  {
  }

  /** State 2 spelled out: j ones after the drop at z = place + count + j. */
  lemma {:induction false} RepeatParts(w: seq<nat>, s: Scan, i: nat) returns (j: nat)
    requires RepeatPending(w, s, i)
    ensures i == s.place + s.count + 2 * j + 1 && s.count >= 1
    ensures Climbs(w, s.place, s.place + s.count + j) && Climbs(w, s.place + s.count + j + 1, i)
    ensures w[s.place + s.count + j + 1] == w[s.place]
  {
    j := (i - s.place - s.count - 1) / 2;
  }

  /** Two climbing runs of n + 1 letters from the same letter form a repeat word. */
  lemma {:induction false} RepeatClose(w: seq<nat>, p: int, n: nat)
    requires n >= 1 && Climbs(w, p, p + n) && p + 2 * n + 2 <= |w| && w[p + n + 1] == w[p]
    requires Climbs(w, p + n + 1, p + 2 * n + 1)
    ensures RepeatShaped(w, Span(p, 2 * n + 2))
  {
    assert (2 * n + 2) / 2 - 1 == n;
  }

  /** The step on a difference 1 in state 2. */
  lemma {:induction false} RepeatPayInv(w: seq<nat>, s: Scan, i: nat)
    requires i < Steps(w) && RepeatInv(w, s, i) && s.state == 2 && w[i + 1] == w[i] + 1
    ensures RepeatInv(w, RepeatStep(w, s, i), i + 1)
  {
    var j := RepeatParts(w, s, i);
    assert Rise(w, i);
    ClimbsSnoc(w, s.place + s.count + j + 1, i);
    DropCountStep(w, i);
    if s.count == 1 {
      assert |s.spans| + 1 <= DropCount(w, i);
      RepeatPayClose(w, s, i, j);
    } else {
      RepeatPayMore(w, s, i, j);
    }
  }

  /** The last rise a repeat word owes closes it: its span is recorded. */
  lemma {:induction false} RepeatPayClose(w: seq<nat>, s: Scan, i: nat, j: nat)
    requires i < Steps(w) && s.state == 2 && s.count == 1 && w[i + 1] == w[i] + 1 && s.place >= 0
    requires i == s.place + 2 * j + 2 && w[s.place + j + 2] == w[s.place]
    requires Climbs(w, s.place, s.place + 1 + j) && Climbs(w, s.place + j + 2, i + 1)
    requires AllRepeatShaped(w, s.spans) && |s.spans| + 1 <= DropCount(w, i + 1)
    ensures RepeatInv(w, RepeatStep(w, s, i), i + 1)
  {
    var p := s.place;
    var sp := Span(p, 2 * (1 + j) + 2);
    RepeatClose(w, p, 1 + j);
    RepeatShapedSnoc(w, s.spans, sp);
    RepeatStepPay(w, s, i);
    RepeatInvIdle(w, s.spans + [sp], p, i + 1);
  }

  /** State 0 with recorded repeat words that fit the drops so far meets the invariant. */
  lemma RepeatInvIdle(w: seq<nat>, spans: seq<Span>, p: int, i: nat)
    requires i <= Steps(w) && p >= 0 && AllRepeatShaped(w, spans) && |spans| <= DropCount(w, i)
    ensures RepeatInv(w, Scan(0, p, 0, spans), i)
  {
  }

  /** A rise that is not the last one a repeat word owes lowers the count. */
  lemma {:induction false} RepeatPayMore(w: seq<nat>, s: Scan, i: nat, j: nat)
    requires i < Steps(w) && RepeatInv(w, s, i) && s.state == 2 && s.count > 1 && w[i + 1] == w[i] + 1
    requires i == s.place + s.count + 2 * j + 1 && w[s.place + s.count + j + 1] == w[s.place]
    requires Climbs(w, s.place, s.place + s.count + j) && Climbs(w, s.place + s.count + j + 1, i + 1)
    requires DropCount(w, i) <= DropCount(w, i + 1)
    ensures RepeatInv(w, RepeatStep(w, s, i), i + 1)
  {
    var t := s.(count := s.count - 1);
    assert (i + 1 - t.place - t.count - 1) / 2 == j + 1;
    assert RepeatPending(w, t, i + 1);
    RepeatStepPay(w, s, i);
  }

  /** A rise in state 2: the count goes down, and at zero the repeat word is recorded. */
  lemma RepeatStepPay(w: seq<nat>, s: Scan, i: nat)
    requires i + 1 < |w| && s.state == 2 && w[i + 1] == w[i] + 1
    ensures s.count == 1 ==> RepeatStep(w, s, i) == Scan(0, s.place, 0, s.spans + [Span(s.place, i - s.place + 2)])
    ensures s.count != 1 ==> RepeatStep(w, s, i) == s.(count := s.count - 1)
  {
  }

  /** The step on a drop of at most count from state 1: the turn of a repeat word. */
  lemma {:induction false} RepeatTurnInv(w: seq<nat>, s: Scan, i: nat)
    requires i < Steps(w) && RepeatInv(w, s, i) && s.state == 1
    requires w[i + 1] < w[i] && w[i] - w[i + 1] <= s.count
    ensures RepeatInv(w, RepeatStep(w, s, i), i + 1)
  {
    var m := w[i] - w[i + 1];
    var t := Scan(2, i - m, m, s.spans);
    ClimbsFrom(w, s.place, i, i - m);
    ClimbValue(w, i - m, i);
    assert w[..i + 1][i - m] == w[i + 1];
    DropCountStep(w, i);
    assert RepeatPending(w, t, i + 1);
    assert RepeatStep(w, s, i) == t;
  }

  /** Every other step: a run starts or grows, or the machine resets. */
  lemma {:induction false} RepeatIdleInv(w: seq<nat>, s: Scan, i: nat)
    requires i < Steps(w) && RepeatInv(w, s, i) && !(s.state == 2 && w[i + 1] == w[i] + 1)
    requires !(s.state == 1 && w[i + 1] < w[i] && w[i] - w[i + 1] <= s.count)
    ensures RepeatInv(w, RepeatStep(w, s, i), i + 1)
  {
    DropCountStep(w, i);
    if w[i + 1] == w[i] + 1 {
      assert Rise(w, i);
      if s.state == 1 {
        ClimbsSnoc(w, s.place, i);
      }
    }
  }

  lemma {:induction false} RepeatStepInv(w: seq<nat>, s: Scan, i: nat)
    requires i < Steps(w) && RepeatInv(w, s, i)
    ensures RepeatInv(w, RepeatStep(w, s, i), i + 1)
  {
    if s.state == 2 && w[i + 1] == w[i] + 1 {
      RepeatPayInv(w, s, i);
    } else if s.state == 1 && w[i + 1] < w[i] && w[i] - w[i + 1] <= s.count {
      RepeatTurnInv(w, s, i);
    } else {
      RepeatIdleInv(w, s, i);
    }
  }

  lemma {:induction false} RepeatFoldInv(w: seq<nat>, n: nat)
    requires n <= Steps(w)
    ensures RepeatInv(w, RepeatFold(w, n), n)
  {
    if n > 0 {
      RepeatFoldInv(w, n - 1);
      RepeatStepInv(w, RepeatFold(w, n - 1), n - 1);
    }
  }

  // ---------------------------------------------------------------------------
  // What get_repeat_return_words promises
  // ---------------------------------------------------------------------------

  /** Every recorded subword is a loop or return word (first scan) or a repeat word (second scan). */
  lemma DetectedShapes(w: seq<nat>)
    ensures AllReturnShaped(w, ReturnFold(w, Steps(w)).spans)
    ensures AllRepeatShaped(w, RepeatFold(w, Steps(w)).spans)
    ensures forall k :: 0 <= k < |Detected(w)| ==> ReturnShaped(w, Detected(w)[k]) || RepeatShaped(w, Detected(w)[k])
  {
    ReturnFoldInv(w, Steps(w));
    RepeatFoldInv(w, Steps(w));
    var r, q := ReturnFold(w, Steps(w)).spans, RepeatFold(w, Steps(w)).spans;
    forall k | 0 <= k < |Detected(w)| ensures ReturnShaped(w, Detected(w)[k]) || RepeatShaped(w, Detected(w)[k]) {
      if k < |r| {
        assert Detected(w)[k] == r[k];
      } else {
        assert Detected(w)[k] == q[k - |r|];
      }
    }
  }

  /** On a DOW the size/2 slots suffice for everything both scans record. */
  lemma DetectedCapacity(w: seq<nat>)
    requires IsDow(w)
    ensures |Detected(w)| <= |w| / 2
  {
    ReturnFoldInv(w, Steps(w));
    RepeatFoldInv(w, Steps(w));
    EventsDow(w);
  }

  /**
   * get_repeat_return_words: the difference array, then the two scans writing
   * into size/2 slots; NULL (None) when nothing was recorded.
   */
  method GetRepeatReturnWords(w: seq<nat>) returns (r: Option<seq<seq<nat>>>)
    requires IsDow(w)
    ensures r == if Detected(w) == [] then None else Some(Slices(w, Detected(w)))
  {
    var size := |w|;
    var subwords := new seq<nat>[size / 2];
    var len := 0;
    var n := Steps(w);
    var diff := new int[n];
    for i := 0 to n
      invariant forall k :: 0 <= k < i ==> diff[k] == w[k + 1] as int - w[k]
    {
      diff[i] := w[i + 1] as int - w[i];
    }
    EventsDow(w);
    len := ReturnScan(w, diff, subwords);
    ReturnFoldInv(w, n);
    len := RepeatScan(w, diff, subwords, len, Slices(w, ReturnFold(w, n).spans));
    SlicesAppend(w, ReturnFold(w, n).spans, RepeatFold(w, n).spans);
    if len == 0 {
      r := None;
    } else {
      r := Some(subwords[..len]);
    }
  }

  /** The first loop of get_repeat_return_words: loops and return words, written from slot 0. */
  method ReturnScan(w: seq<nat>, diff: array<int>, subwords: array<seq<nat>>) returns (len: nat)
    requires diff.Length == Steps(w) && forall k :: 0 <= k < diff.Length ==> diff[k] == w[k + 1] as int - w[k]
    requires ZeroCount(w, Steps(w)) <= subwords.Length
    modifies subwords
    ensures len == |ReturnFold(w, Steps(w)).spans| <= subwords.Length
    ensures subwords[..len] == Slices(w, ReturnFold(w, Steps(w)).spans)
  {
    var size, n := |w|, Steps(w);
    var state, place, count := 0, 0, 0;
    len := 0;
    for i := 0 to n
      invariant var f := ReturnFold(w, i); state == f.state && place == f.place && count == f.count
      invariant len == |ReturnFold(w, i).spans| <= subwords.Length
      invariant subwords[..len] == Slices(w, ReturnFold(w, i).spans)
    {
      ghost var f := ReturnFold(w, i);
      assert ReturnFold(w, i + 1) == ReturnStep(w, f, i);
      var record, p, l;
      state, place, count, record, p, l := ReturnSwitch(w, diff[i], i, state, place, count, f.spans);
      assert ReturnFold(w, i + 1) == Scan(state, place, count, if record then f.spans + [Span(p, l)] else f.spans);
      if record {
        ReturnRecordFits(w, i, Span(p, l));
        RecordSpan(w, subwords, len, Slices(w, f.spans), Span(p, l));
        SlicesAppend(w, f.spans, [Span(p, l)]);
        len := len + 1;
      }
    }
  }

  /**
   * The switch on diff[i] in the first loop of get_repeat_return_words; when
   * it records a subword, that subword is the slice w[p..p + l].
   */
  method ReturnSwitch(w: seq<nat>, d: int, i: nat, state0: int, place0: int, count0: int, ghost spans: seq<Span>)
    returns (state: int, place: int, count: int, record: bool, p: int, l: int)
    requires i + 1 < |w| && d == w[i + 1] as int - w[i]
    ensures ReturnStep(w, Scan(state0, place0, count0, spans), i)
         == Scan(state, place, count, if record then spans + [Span(p, l)] else spans)
  {
    var size := |w|;
    state, place, count := state0, place0, count0;
    record, p, l := false, 0, 0;
    if d == 0 {
      if state == 1 && i != size - 2 {
        state := 2;
      } else {
        record, p, l := true, i, 2;
        state, count := 0, 0;
      }
    } else if d == 1 {
      if state == 0 {
        place := i;
      } else if state == 2 {
        place := place + count;
        record, p, l := true, place, i - place + 1;
        place, count := i, 0;
      }
      state, count := 1, count + 1;
    } else if d == -1 {
      if state == 2 {
        count := count - 1;
        if count == 0 || i == size - 2 {
          if i == size - 2 {
            place := place + count;
          }
          record, p, l := true, place, i - place + 2;
          state, count := 0, 0;
        }
      } else {
        state, count := 0, 0;
      }
    } else {
      if state == 2 {
        place := place + count;
        record, p, l := true, place, i - place + 1;
      }
      state, count := 0, 0;
    }
  }

  /** The switch on diff[i] in the second loop of get_repeat_return_words. */
  method RepeatSwitch(w: seq<nat>, d: int, i: nat, state0: int, place0: int, count0: int, ghost spans: seq<Span>)
    returns (state: int, place: int, count: int, record: bool)
    requires i + 1 < |w| && d == w[i + 1] as int - w[i]
    ensures RepeatStep(w, Scan(state0, place0, count0, spans), i)
         == Scan(state, place, count, if record then spans + [Span(place0, i - place0 + 2)] else spans)
  {
    state, place, count := state0, place0, count0;
    record := false;
    if d == 1 {
      if state == 0 {
        state, place, count := 1, i, count + 1;
      } else if state == 1 {
        count := count + 1;
      } else if state == 2 {
        count := count - 1;
        if count == 0 {
          record := true;
          state, count := 0, 0;
        }
      }
    } else if state == 1 {
      if d < 0 && -count <= d {
        place := place + count + d;
        count := -d;
        state := 2;
      } else {
        state, count := 0, 0;
      }
    } else {
      state, count := 0, 0;
    }
  }

  /** A span the return scan records lies inside the word, and the slots counted for it are not used up. */
  lemma ReturnRecordFits(w: seq<nat>, i: nat, sp: Span)
    requires i < Steps(w) && ReturnFold(w, i + 1).spans == ReturnFold(w, i).spans + [sp]
    ensures 0 <= sp.start && 0 <= sp.len && sp.start + sp.len <= |w|
    ensures |ReturnFold(w, i).spans| < ZeroCount(w, Steps(w))
  {
    ReturnFoldInv(w, i + 1);
    ZeroCountMono(w, i + 1, Steps(w));
    var g := ReturnFold(w, i + 1).spans;
    assert ReturnShaped(w, g[|g| - 1]);
  }

  /** A span the repeat scan records lies inside the word, and the slots counted for it are not used up. */
  lemma RepeatRecordFits(w: seq<nat>, i: nat, sp: Span)
    requires i < Steps(w) && RepeatFold(w, i + 1).spans == RepeatFold(w, i).spans + [sp]
    ensures 0 <= sp.start && 0 <= sp.len && sp.start + sp.len <= |w|
    ensures |RepeatFold(w, i).spans| < DropCount(w, Steps(w))
  {
    RepeatFoldInv(w, i + 1);
    DropCountMono(w, i + 1, Steps(w));
    var g := RepeatFold(w, i + 1).spans;
    assert RepeatShaped(w, g[|g| - 1]);
  }

  /** Copies the slice a span denotes into the next free slot. */
  method RecordSpan(w: seq<nat>, subwords: array<seq<nat>>, len: nat, ghost recorded: seq<seq<nat>>, sp: Span)
    requires len == |recorded| < subwords.Length && subwords[..len] == recorded
    requires 0 <= sp.start && 0 <= sp.len && sp.start + sp.len <= |w|
    modifies subwords
    ensures subwords[..len + 1] == recorded + [Slice(w, sp)]
  {
    subwords[len] := w[sp.start..sp.start + sp.len];
  }

  lemma {:induction false} SlicesAppend(w: seq<nat>, a: seq<Span>, b: seq<Span>)
    ensures Slices(w, a + b) == Slices(w, a) + Slices(w, b)
  {
  }

  lemma {:induction false} SlicesSnoc(w: seq<nat>, found: seq<seq<nat>>, spans: seq<Span>, sp: Span)
    ensures found + Slices(w, spans + [sp]) == found + Slices(w, spans) + [Slice(w, sp)]
  {
    SlicesAppend(w, spans, [sp]);
  }

  /** The second loop of get_repeat_return_words: repeat words, written after the len0 already recorded. */
  method RepeatScan(w: seq<nat>, diff: array<int>, subwords: array<seq<nat>>, len0: nat, ghost found: seq<seq<nat>>)
    returns (len: nat)
    requires diff.Length == Steps(w) && forall k :: 0 <= k < diff.Length ==> diff[k] == w[k + 1] as int - w[k]
    requires len0 == |found| && len0 + DropCount(w, Steps(w)) <= subwords.Length && subwords[..len0] == found
    modifies subwords
    ensures len == len0 + |RepeatFold(w, Steps(w)).spans| <= subwords.Length
    ensures subwords[..len] == found + Slices(w, RepeatFold(w, Steps(w)).spans)
  {
    var n := Steps(w);
    var state, place, count := 0, 0, 0;
    len := len0;
    for i := 0 to n
      invariant var f := RepeatFold(w, i); state == f.state && place == f.place && count == f.count
      invariant len == len0 + |RepeatFold(w, i).spans| <= subwords.Length
      invariant subwords[..len] == found + Slices(w, RepeatFold(w, i).spans)
    {
      ghost var f := RepeatFold(w, i);
      assert RepeatFold(w, i + 1) == RepeatStep(w, f, i);
      var record, p := false, place;
      state, place, count, record := RepeatSwitch(w, diff[i], i, state, place, count, f.spans);
      assert RepeatFold(w, i + 1) == Scan(state, place, count, if record then f.spans + [Span(p, i - p + 2)] else f.spans);
      if record {
        RepeatRecordFits(w, i, Span(p, i - p + 2));
        RecordSpan(w, subwords, len, found + Slices(w, f.spans), Span(p, i - p + 2));
        SlicesSnoc(w, found, f.spans, Span(p, i - p + 2));
        len := len + 1;
      }
    }
  }
}
