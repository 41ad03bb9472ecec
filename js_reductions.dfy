/**
 * Word objects, step and get_NI of reductions.js. A step removes, in one child, every letter
 * of the subwords tau_sequences returns, and in one child each, every letter outside them;
 * get_NI counts the steps until some word of a level is empty.
 */
module JsReductions {
  import opened Dow
  import opened JsWords
  import opened JsSequences

  /** A word object: the word, the words it was reduced from, the marks of the steps taken, and whether the word is empty. */
  datatype WordObj = WordObj(value: seq<nat>, history: seq<seq<nat>>, path: seq<string>, isEmpty: bool)

  /** The word_obj constructor. */
  function NewWordObj(word: seq<nat>, history: seq<seq<nat>>, path: seq<string>): WordObj
  {
    WordObj(word, history, path, |word| == 0)
  }

  // ---------------------------------------------------------------------------
  // The marks of a path
  // ---------------------------------------------------------------------------

  function Digit(d: nat): char
    requires d < 10
  {
    "0123456789"[d]
  }

  predicate AllDigits(s: string)
  {
    forall i :: 0 <= i < |s| ==> '0' <= s[i] <= '9'
  }

  /** The decimal numeral of n, as a number is written when it is joined to a string. */
  function Decimal(n: nat): (s: string)
    ensures |s| >= 1 && AllDigits(s)
    ensures n >= 10 ==> s[0] != '0'
  {
    if n < 10 then [Digit(n)] else Decimal(n / 10) + [Digit(n % 10)]
  }

  /** The number a string of decimal digits stands for. */
  function DecimalValue(s: string): nat
    requires AllDigits(s)
  {
    if s == [] then 0 else DecimalValue(s[..|s| - 1]) * 10 + (s[|s| - 1] as int - '0' as int)
  }

  /** Reading back a numeral gives the number: the removed letter can be recovered from the mark. */
  lemma {:induction false} DecimalRoundTrip(n: nat)
    ensures DecimalValue(Decimal(n)) == n
  {
    if n >= 10 {
      DecimalRoundTrip(n / 10);
      var s := Decimal(n);
      assert s[..|s| - 1] == Decimal(n / 10);
    }
  }

  /** The mark of the child that drops the letters of the subwords. */
  const SequenceMark: string := "1"

  /** The mark of the child that drops the letter x. */
  function DropMark(x: nat): string
  {
    "2 (removal of  " + Decimal(x) + ")"
  }

  // ---------------------------------------------------------------------------
  // step
  // ---------------------------------------------------------------------------

  /** The subwords tau_sequences returns. */
  function TauSlices(w: seq<nat>): seq<seq<nat>>
    requires IsDow(w)
  {
    TauEntries(w);
    Slices(w, TauFound(w))
  }

  /** The letters step drops one at a time: those of no subword, in the order alpha lists them. */
  function DropList(w: seq<nat>): seq<nat>
    requires IsDow(w)
  {
    var ts := TauSlices(w);
    if ts == [] then Dedup(w) else Keep(Dedup(w), Letters(ts))
  }

  function Child(parent: WordObj, value: seq<nat>, mark: string): WordObj
  {
    NewWordObj(value, parent.history + [parent.value], parent.path + [mark])
  }

  /** The child that drops the letter x. */
  function RemovalChild(parent: WordObj, x: nat): WordObj
  {
    Child(parent, Canon(RemovePair(parent.value, x)), DropMark(x))
  }

  /** f applied to each element of s, in order. */
  function MapSeq<A, B>(f: A -> B, s: seq<A>): (r: seq<B>)
    ensures |r| == |s| && forall k :: 0 <= k < |s| ==> r[k] == f(s[k])
  {
    seq(|s|, k requires 0 <= k < |s| => f(s[k]))
  }

  lemma MapSeqSnoc<A, B>(f: A -> B, s: seq<A>, i: nat)
    requires i < |s|
    ensures MapSeq(f, s[..i + 1]) == MapSeq(f, s[..i]) + [f(s[i])]
  {
    assert forall k :: 0 <= k < i ==> s[..i + 1][k] == s[..i][k];
  }

  /** The children that drop one letter each, in the order of drop. */
  function DropChildren(parent: WordObj, drop: seq<nat>): seq<WordObj>
  {
    MapSeq(x => RemovalChild(parent, x), drop)
  }

  /** The list step returns, from the subwords, the word without their letters and the letters to drop one at a time. */
  function Assemble(obj: WordObj, ts: seq<seq<nat>>, reduced: seq<nat>, drop: seq<nat>): seq<WordObj>
  {
    (if ts != [] then [Child(obj, Canon(reduced), SequenceMark)] else []) + DropChildren(obj, drop)
  }

  /** What step returns for a word object. */
  function Children(obj: WordObj): seq<WordObj>
    requires IsDow(obj.value)
  {
    var w := obj.value;
    Assemble(obj, TauSlices(w), RemoveAll(w, TauSlices(w)), DropList(w))
  }

  /** The inner loops of step: whether the letter lies in one of the subwords. */
  method LetterInSequences(letter: nat, abList: seq<seq<nat>>) returns (letterInSeq: bool)
    ensures letterInSeq <==> letter in Letters(abList)
  {
    letterInSeq := false;
    for j := 0 to |abList|
      invariant letterInSeq <==> exists k :: 0 <= k < j && letter in abList[k]
    {
      var sq := abList[j];
      ghost var before := letterInSeq;
      for k := 0 to |sq|
        invariant letterInSeq <==> before || letter in sq[..k]
      {
        if letter == sq[k] {
          letterInSeq := true;
        }
        assert sq[..k + 1] == sq[..k] + [sq[k]];
      }
      assert sq[..|sq|] == sq;
    }
  }

  /** The letters removed together are pairwise disjoint and occur twice; removing them gives a DOW. */
  lemma SequenceRemoval(w: seq<nat>)
    requires IsDow(w)
    ensures RemoveAll(w, TauSlices(w)) == Keep(w, Letters(TauSlices(w)))
    ensures IsDow(RemoveAll(w, TauSlices(w)))
  {
    TauDisjoint(w);
    RemoveAllKeep(w, TauSlices(w));
    KeepDow(w, Letters(TauSlices(w)));
  }

  /** The letters dropped one at a time are distinct letters of w that no subword holds, and every such letter is one. */
  lemma DropListSpec(w: seq<nat>)
    requires IsDow(w)
    ensures NoDup(DropList(w))
    ensures forall x :: x in DropList(w) <==> x in w && x !in Letters(TauSlices(w))
    ensures forall k :: 0 <= k < |DropList(w)| ==> Count(w, DropList(w)[k]) == 2
  {
    var ts := TauSlices(w);
    DedupSpec(w);
    if ts == [] {
      assert Letters(ts) == {};
    } else {
      KeepNoDup(Dedup(w), Letters(ts));
      forall x ensures x in DropList(w) <==> x in w && x !in Letters(ts) {
        KeepMember(Dedup(w), Letters(ts), x);
      }
    }
    forall k | 0 <= k < |DropList(w)| ensures Count(w, DropList(w)[k]) == 2 {
      var x := DropList(w)[k];
      assert x in DropList(w);
      var i :| 0 <= i < |w| && w[i] == x;
    }
  }

  lemma {:induction false} KeepNoDup(s: seq<nat>, D: set<nat>)
    requires NoDup(s)
    ensures NoDup(Keep(s, D))
  {
    if s != [] {
      var v, y := s[..|s| - 1], s[|s| - 1];
      assert s == v + [y];
      KeepNoDup(v, D);
      KeepMember(v, D, y);
      assert y !in v;
    }
  }

  /** The alphabet loop of step: the letters of alphOfW that lie in no subword, in order. */
  method FreeLetters(alphOfW: seq<nat>, abList: seq<seq<nat>>) returns (dropList: seq<nat>)
    ensures dropList == Keep(alphOfW, Letters(abList))
  {
    dropList := [];
    for i := 0 to |alphOfW|
      invariant dropList == Keep(alphOfW[..i], Letters(abList))
    {
      var letter := alphOfW[i];
      var letterInSeq := LetterInSequences(letter, abList);
      if !letterInSeq {
        dropList := dropList + [letter];
      }
      KeepPrefix(alphOfW, Letters(abList), i);
    }
    assert alphOfW[..|alphOfW|] == alphOfW;
  }

  /** The branch of step for a word with subwords: drop all their letters at once, then relabel. */
  method SequenceChild(word: WordObj, abList: seq<seq<nat>>) returns (child: WordObj)
    requires IsDow(word.value) && abList == TauSlices(word.value)
    ensures child == Child(word, Canon(RemoveAll(word.value, abList)), SequenceMark)
  {
    var wDropAB := RemoveSequences(word.value, abList);
    SequenceRemoval(word.value);
    wDropAB := Relabel(wDropAB);
    var wHist := word.history + [word.value];
    var wPath := word.path + [SequenceMark];
    child := NewWordObj(wDropAB, wHist, wPath);
  }

  /** The last loop of step: one child per dropped letter, relabelled. */
  method DropEach(word: WordObj, dropList: seq<nat>) returns (children: seq<WordObj>)
    requires forall k :: 0 <= k < |dropList| ==> Count(word.value, dropList[k]) == 2
    requires IsDow(word.value)
    ensures children == DropChildren(word, dropList)
  {
    children := [];
    for i := 0 to |dropList|
      invariant children == DropChildren(word, dropList[..i])
    {
      var letter := dropList[i];
      var removed := Remove(word.value, letter);
      KeepDow(word.value, {letter});
      var wDropLetter := Relabel(removed);
      var wHist := word.history + [word.value];
      var wPath := word.path + [DropMark(letter)];
      var child := NewWordObj(wDropLetter, wHist, wPath);
      assert child == RemovalChild(word, letter);
      MapSeqSnoc(x => RemovalChild(word, x), dropList, i);
      children := children + [child];
    }
    assert dropList[..|dropList|] == dropList;
  }

  /** The parts step assembles make up the children. */
  lemma ChildrenParts(word: WordObj, head: seq<WordObj>, rest: seq<WordObj>)
    requires IsDow(word.value)
    requires head == if TauSlices(word.value) != [] then [Child(word, Canon(RemoveAll(word.value, TauSlices(word.value))), SequenceMark)] else []
    requires rest == DropChildren(word, DropList(word.value))
    ensures head + rest == Children(word)
  {
    var w := word.value;
    assert head + rest == Assemble(word, TauSlices(w), RemoveAll(w, TauSlices(w)), DropList(w));
  }

  /** step: the child without the subwords' letters, if there are subwords, then one child per letter dropped. */
  method Step(word: WordObj) returns (returnList: seq<WordObj>)
    requires IsDow(word.value)
    ensures returnList == Children(word)
  {
    var dropList: seq<nat>;
    returnList := [];
    var abList := TauSequences(word.value);
    assert abList == TauSlices(word.value);
    if |abList| != 0 {
      var alphOfW := Alpha(word.value);
      dropList := FreeLetters(alphOfW, abList);
      var child := SequenceChild(word, abList);
      returnList := returnList + [child];
    } else {
      dropList := Alpha(word.value);
    }
    assert dropList == DropList(word.value);
    DropListSpec(word.value);
    var rest := DropEach(word, dropList);
    ChildrenParts(word, returnList, rest);
    returnList := returnList + rest;
  }

  // ---------------------------------------------------------------------------
  // What step returns
  // ---------------------------------------------------------------------------

  /** The child that drops the subwords' letters is at least one letter pair shorter. */
  lemma SequenceChildShorter(w: seq<nat>)
    requires IsDow(w) && TauSlices(w) != []
    ensures |Keep(w, Letters(TauSlices(w)))| + 2 <= |w|
  {
    TauDisjoint(w);
    TauEntries(w);
    var s := TauFound(w)[0];
    var ts := TauSlices(w);
    assert ts[0] == w[s.lo..s.hi];
    assert s.lo < s.hi;
    assert ts[0][0] == w[s.lo];
    var x := w[s.lo];
    assert x in ts[0];
    assert x in Letters(ts);
    KeepShorter(w, Letters(ts), x);
  }

  /** A child: its word is a canonical DOW at least two letters shorter than its parent's, and its history and path extend the parent's by one entry. */
  predicate ChildOf(parent: WordObj, c: WordObj)
  {
    Canonical(c.value) && (c.isEmpty <==> c.value == []) &&
    |c.value| + 2 <= |parent.value| &&
    c.history == parent.history + [parent.value] &&
    |c.path| == |parent.path| + 1 && c.path[..|parent.path|] == parent.path
  }

  lemma ChildShape(parent: WordObj, u: seq<nat>, mark: string)
    requires IsDow(u) && |u| + 2 <= |parent.value|
    ensures ChildOf(parent, Child(parent, Canon(u), mark))
  {
    CanonicalOf(u);
    var c := Child(parent, Canon(u), mark);
    assert c.path[..|parent.path|] == parent.path;
  }

  /** The child without one letter x that occurs twice. */
  lemma DropChild(parent: WordObj, x: nat)
    requires IsDow(parent.value) && Count(parent.value, x) == 2
    ensures Child(parent, Canon(RemovePair(parent.value, x)), DropMark(x)) == Child(parent, Canon(Keep(parent.value, {x})), DropMark(x))
    ensures ChildOf(parent, Child(parent, Canon(Keep(parent.value, {x})), DropMark(x)))
  {
    RemovePairKeep(parent.value, x);
    KeepDow(parent.value, {x});
    KeepOneLength(parent.value, x);
    ChildShape(parent, Keep(parent.value, {x}), DropMark(x));
  }

  lemma DropChildrenSpec(parent: WordObj, drop: seq<nat>)
    requires IsDow(parent.value)
    requires forall k :: 0 <= k < |drop| ==> Count(parent.value, drop[k]) == 2
    ensures |DropChildren(parent, drop)| == |drop|
    ensures forall k :: 0 <= k < |drop| ==>
      DropChildren(parent, drop)[k] == Child(parent, Canon(Keep(parent.value, {drop[k]})), DropMark(drop[k]))
    ensures forall k :: 0 <= k < |drop| ==> ChildOf(parent, DropChildren(parent, drop)[k])
  {
    forall k | 0 <= k < |drop|
      ensures DropChildren(parent, drop)[k] == Child(parent, Canon(Keep(parent.value, {drop[k]})), DropMark(drop[k]))
      ensures ChildOf(parent, DropChildren(parent, drop)[k])
    {
      DropChild(parent, drop[k]);
    }
  }

  lemma AssembleSpec(obj: WordObj, ts: seq<seq<nat>>, reduced: seq<nat>, drop: seq<nat>)
    ensures ts != [] ==>
      |Assemble(obj, ts, reduced, drop)| == 1 + |drop| &&
      Assemble(obj, ts, reduced, drop)[0] == Child(obj, Canon(reduced), SequenceMark) &&
      forall k :: 0 <= k < |drop| ==> Assemble(obj, ts, reduced, drop)[1 + k] == DropChildren(obj, drop)[k]
    ensures ts == [] ==> Assemble(obj, ts, reduced, drop) == DropChildren(obj, drop)
  {
    var tail := DropChildren(obj, drop);
    if ts != [] {
      var head := [Child(obj, Canon(reduced), SequenceMark)];
      assert Assemble(obj, ts, reduced, drop) == head + tail;
      forall k | 0 <= k < |drop| ensures (head + tail)[1 + k] == tail[k] {
      }
    } else {
      assert Assemble(obj, ts, reduced, drop) == [] + tail;
      assert [] + tail == tail;
    }
  }

  /** step's result in full: the child without the subwords' letters when there are subwords, followed by the child without x, for each letter x of drop list in turn. */
  lemma ChildrenSpec(obj: WordObj)
    requires IsDow(obj.value)
    ensures TauSlices(obj.value) != [] ==>
      |Children(obj)| == 1 + |DropList(obj.value)| &&
      Children(obj)[0] == Child(obj, Canon(Keep(obj.value, Letters(TauSlices(obj.value)))), SequenceMark) &&
      forall k :: 0 <= k < |DropList(obj.value)| ==>
        Children(obj)[1 + k] == Child(obj, Canon(Keep(obj.value, {DropList(obj.value)[k]})), DropMark(DropList(obj.value)[k]))
    ensures TauSlices(obj.value) == [] ==>
      |Children(obj)| == |DropList(obj.value)| &&
      forall k :: 0 <= k < |DropList(obj.value)| ==>
        Children(obj)[k] == Child(obj, Canon(Keep(obj.value, {DropList(obj.value)[k]})), DropMark(DropList(obj.value)[k]))
  {
    var w, ts, drop := obj.value, TauSlices(obj.value), DropList(obj.value);
    AssembleSpec(obj, ts, RemoveAll(w, ts), drop);
    DropListSpec(w);
    DropChildrenSpec(obj, drop);
    if ts != [] {
      SequenceRemoval(w);
    }
  }

  lemma ShapeWithSequences(obj: WordObj)
    requires IsDow(obj.value) && TauSlices(obj.value) != []
    ensures forall k :: 0 <= k < |Children(obj)| ==> ChildOf(obj, Children(obj)[k])
  {
    var w, ts, drop := obj.value, TauSlices(obj.value), DropList(obj.value);
    var cs := Children(obj);
    AssembleSpec(obj, ts, RemoveAll(w, ts), drop);
    DropListSpec(w);
    DropChildrenSpec(obj, drop);
    SequenceRemoval(w);
    SequenceChildShorter(w);
    ChildShape(obj, Keep(w, Letters(ts)), SequenceMark);
    forall j | 1 <= j < |cs| ensures ChildOf(obj, cs[j]) {
      assert cs[1 + (j - 1)] == DropChildren(obj, drop)[j - 1];
    }
  }

  lemma ShapeWithoutSequences(obj: WordObj)
    requires IsDow(obj.value) && TauSlices(obj.value) == []
    ensures forall k :: 0 <= k < |Children(obj)| ==> ChildOf(obj, Children(obj)[k])
  {
    var w, ts, drop := obj.value, TauSlices(obj.value), DropList(obj.value);
    AssembleSpec(obj, ts, RemoveAll(w, ts), drop);
    DropListSpec(w);
    DropChildrenSpec(obj, drop);
  }

  lemma SomeLetterDropped(obj: WordObj)
    requires IsDow(obj.value) && TauSlices(obj.value) == [] && obj.value != []
    ensures Children(obj) != []
  {
    var w, ts := obj.value, TauSlices(obj.value);
    AssembleSpec(obj, ts, RemoveAll(w, ts), DropList(w));
    DedupSpec(w);
    assert w[0] in Dedup(w);
  }

  /** Every child is a proper reduction of its parent, and a non-empty word has at least one child. */
  lemma ChildrenShape(obj: WordObj)
    requires IsDow(obj.value)
    ensures forall k :: 0 <= k < |Children(obj)| ==> ChildOf(obj, Children(obj)[k])
    ensures obj.value != [] ==> Children(obj) != []
  {
    if TauSlices(obj.value) != [] {
      ShapeWithSequences(obj);
      AssembleSpec(obj, TauSlices(obj.value), RemoveAll(obj.value, TauSlices(obj.value)), DropList(obj.value));
    } else {
      ShapeWithoutSequences(obj);
      if obj.value != [] {
        SomeLetterDropped(obj);
      }
    }
  }

  // ---------------------------------------------------------------------------
  // get_NI
  // ---------------------------------------------------------------------------

  predicate WellFormed(o: WordObj)
  {
    IsDow(o.value) && (o.isEmpty <==> o.value == [])
  }

  predicate AllWellFormed(ws: seq<WordObj>)
  {
    forall k :: 0 <= k < |ws| ==> WellFormed(ws[k])
  }

  function Values(ws: seq<WordObj>): (r: seq<seq<nat>>)
    ensures |r| == |ws| && forall k :: 0 <= k < |ws| ==> r[k] == ws[k].value
  {
    seq(|ws|, k requires 0 <= k < |ws| => ws[k].value)
  }

  predicate HasEmpty(ws: seq<WordObj>)
  {
    exists k :: 0 <= k < |ws| && ws[k].isEmpty
  }

  /** The next level: the results of step on each word of ws, concatenated in order. */
  function NextLevel(ws: seq<WordObj>): seq<WordObj>
    requires AllWellFormed(ws)
  {
    if ws == [] then [] else NextLevel(ws[..|ws| - 1]) + Children(ws[|ws| - 1])
  }

  lemma {:induction false} NextLevelShape(ws: seq<WordObj>, bound: nat)
    requires AllWellFormed(ws)
    requires forall k :: 0 <= k < |ws| ==> |ws[k].value| <= bound
    ensures AllWellFormed(NextLevel(ws))
    ensures forall j :: 0 <= j < |NextLevel(ws)| ==> |NextLevel(ws)[j].value| + 2 <= bound
    ensures (forall k :: 0 <= k < |ws| ==> !ws[k].isEmpty) ==> |NextLevel(ws)| >= |ws|
  {
    if ws != [] {
      var v, o := ws[..|ws| - 1], ws[|ws| - 1];
      NextLevelShape(v, bound);
      ChildrenShape(o);
      var head, cs := NextLevel(v), Children(o);
      assert NextLevel(ws) == head + cs;
      forall j | 0 <= j < |head + cs|
        ensures WellFormed((head + cs)[j]) && |(head + cs)[j].value| + 2 <= bound
      {
        if j >= |head| {
          assert ChildOf(o, cs[j - |head|]);
        }
      }
    }
  }

  /** A level without an empty word steps to a non-empty level of shorter words. */
  lemma NextLevelStep(ws: seq<WordObj>)
    requires AllWellFormed(ws) && ws != [] && !HasEmpty(ws)
    ensures AllWellFormed(NextLevel(ws)) && NextLevel(ws) != []
    ensures MaxLen(Values(NextLevel(ws))) + 2 <= MaxLen(Values(ws))
  {
    var bound := MaxLen(Values(ws));
    MaxLenSpec(Values(ws));
    NextLevelShape(ws, bound);
    var next := NextLevel(ws);
    assert WellFormed(ws[0]) && !ws[0].isEmpty;
    DowLength(ws[0].value);
    MaxLenLeast(Values(next), bound - 2);
  }

  /** The steps get_NI's loop still takes from level ws. */
  function NestFrom(ws: seq<WordObj>): nat
    requires AllWellFormed(ws) && ws != []
    decreases MaxLen(Values(ws))
  {
    if HasEmpty(ws) then 0
    else
      NextLevelStep(ws);
      1 + NestFrom(NextLevel(ws))
  }

  /** The first level: the children of the start word. */
  lemma FirstLevel(w: seq<nat>)
    requires IsDow(w) && w != []
    ensures AllWellFormed(Children(NewWordObj(w, [], []))) && Children(NewWordObj(w, [], [])) != []
  {
    var start := NewWordObj(w, [], []);
    ChildrenShape(start);
    forall k | 0 <= k < |Children(start)| ensures WellFormed(Children(start)[k]) {
      assert ChildOf(start, Children(start)[k]);
    }
  }

  /** The nesting index get_NI computes: 0 for the empty word, else one step and then NestFrom. */
  function NestingIndex(w: seq<nat>): nat
    requires IsDow(w)
  {
    if w == [] then 0
    else
      FirstLevel(w);
      1 + NestFrom(Children(NewWordObj(w, [], [])))
  }

  /** The check loop of get_NI: whether some word of the level is empty. */
  method AnyEmpty(currentWords: seq<WordObj>) returns (found: bool)
    ensures found == HasEmpty(currentWords)
  {
    found := false;
    for i := 0 to |currentWords|
      invariant found <==> exists k :: 0 <= k < i && currentWords[k].isEmpty
    {
      if currentWords[i].isEmpty {
        found := true;
      }
    }
  }

  /** The stepping loop of get_NI: the results of step on every word of the level, concatenated. */
  method StepLevel(currentWords: seq<WordObj>) returns (nextWords: seq<WordObj>)
    requires AllWellFormed(currentWords)
    ensures nextWords == NextLevel(currentWords)
  {
    nextWords := [];
    for i := 0 to |currentWords|
      invariant nextWords == NextLevel(currentWords[..i])
    {
      var children := Step(currentWords[i]);
      assert currentWords[..i + 1][..i] == currentWords[..i];
      nextWords := nextWords + children;
    }
    assert currentWords[..|currentWords|] == currentWords;
  }

  /** One more level: NestFrom counts the step just taken. */
  lemma NestFromNext(ws: seq<WordObj>)
    requires AllWellFormed(ws) && ws != [] && !HasEmpty(ws)
    ensures AllWellFormed(NextLevel(ws)) && NextLevel(ws) != []
    ensures NestFrom(ws) == 1 + NestFrom(NextLevel(ws))
    ensures MaxLen(Values(NextLevel(ws))) < MaxLen(Values(ws))
  {
    NextLevelStep(ws);
  }

  /** get_NI: step the start word, then step every word of the level until some word is empty. */
  method GetNI(word: seq<nat>) returns (ni: nat)
    requires IsDow(word)
    ensures ni == NestingIndex(word)
  {
    ni := 0;
    var startWord := NewWordObj(word, [], []);
    if startWord.isEmpty {
      return;
    }
    var currentWords := Step(startWord);
    ni := ni + 1;
    FirstLevel(word);
    var emptyWordNotInCurrent := true;
    while emptyWordNotInCurrent
      invariant AllWellFormed(currentWords) && currentWords != []
      invariant emptyWordNotInCurrent ==> ni + NestFrom(currentWords) == NestingIndex(word)
      invariant !emptyWordNotInCurrent ==> ni == NestingIndex(word)
      decreases MaxLen(Values(currentWords)) + if emptyWordNotInCurrent then 1 else 0
    {
      var found := AnyEmpty(currentWords);
      if found {
        emptyWordNotInCurrent := false;
      } else {
        ni := ni + 1;
        var nextWords := StepLevel(currentWords);
        NestFromNext(currentWords);
        currentWords := nextWords;
      }
    }
  }

  // ---------------------------------------------------------------------------
  // What get_NI computes
  // ---------------------------------------------------------------------------

  lemma {:induction false} NestFromBound(ws: seq<WordObj>)
    requires AllWellFormed(ws) && ws != []
    ensures 2 * NestFrom(ws) <= MaxLen(Values(ws))
    decreases MaxLen(Values(ws))
  {
    if !HasEmpty(ws) {
      NextLevelStep(ws);
      NestFromBound(NextLevel(ws));
    }
  }

  /** The nesting index is 0 exactly for the empty word, and of a non-empty word at least 1 and at most half its length. */
  lemma NestingIndexRange(w: seq<nat>)
    requires IsDow(w)
    ensures NestingIndex(w) == 0 <==> w == []
    ensures w != [] ==> 1 <= NestingIndex(w) <= |w| / 2
  {
    if w != [] {
      var start := NewWordObj(w, [], []);
      ChildrenShape(start);
      var cs := Children(start);
      forall k | 0 <= k < |cs| ensures WellFormed(cs[k]) && |Values(cs)[k]| <= |w| - 2 {
        assert ChildOf(start, cs[k]);
      }
      NestFromBound(cs);
      MaxLenLeast(Values(cs), |w| - 2);
      DowLength(w);
    }
  }

  /** The level reached from ws after k steps. */
  function Reach(ws: seq<WordObj>, k: nat): seq<WordObj>
    requires AllWellFormed(ws)
    decreases k
  {
    if k == 0 then ws
    else
      MaxLenSpec(Values(ws));
      NextLevelShape(ws, MaxLen(Values(ws)));
      Reach(NextLevel(ws), k - 1)
  }

  /** The level get_NI starts from: the word alone, with empty history and path. */
  function Start(w: seq<nat>): seq<WordObj>
  {
    [NewWordObj(w, [], [])]
  }

  /** The nesting index counts the steps from the start level. */
  lemma NestingIndexFrom(w: seq<nat>)
    requires IsDow(w)
    ensures AllWellFormed(Start(w)) && NestingIndex(w) == NestFrom(Start(w))
  {
    var start := NewWordObj(w, [], []);
    assert Start(w)[0] == start;
    if w == [] {
      assert HasEmpty(Start(w));
    } else {
      FirstLevel(w);
      assert !HasEmpty(Start(w));
      assert Start(w)[..0] == [];
      var cs := Children(start);
      assert NextLevel(Start(w)) == [] + cs;
      assert [] + cs == cs;
      NestFromNext(Start(w));
      assert NestingIndex(w) == 1 + NestFrom(cs);
    }
  }

  /** NestFrom counts exactly the steps to the first level that holds an empty word. */
  lemma {:induction false} NestFromLeast(ws: seq<WordObj>)
    requires AllWellFormed(ws) && ws != []
    ensures HasEmpty(Reach(ws, NestFrom(ws)))
    ensures forall j :: 0 <= j < NestFrom(ws) ==> !HasEmpty(Reach(ws, j))
    decreases MaxLen(Values(ws))
  {
    if !HasEmpty(ws) {
      NestFromNext(ws);
      var next := NextLevel(ws);
      var n := NestFrom(next);
      NestFromLeast(next);
      ReachNext(ws, n + 1);
      forall j | 0 <= j < n + 1 ensures !HasEmpty(Reach(ws, j)) {
        if j > 0 {
          ReachNext(ws, j);
        }
      }
    }
  }

  /** After the first step, the levels reached are those reached from the next level. */
  lemma ReachNext(ws: seq<WordObj>, j: nat)
    requires AllWellFormed(ws) && AllWellFormed(NextLevel(ws)) && j > 0
    ensures Reach(ws, j) == Reach(NextLevel(ws), j - 1)
  {
  }

  /** The nesting index is the least number of steps after which some reduced word is empty. */
  lemma NestingIndexLeast(w: seq<nat>)
    requires IsDow(w)
    ensures AllWellFormed(Start(w))
    ensures HasEmpty(Reach(Start(w), NestingIndex(w)))
    ensures forall j :: 0 <= j < NestingIndex(w) ==> !HasEmpty(Reach(Start(w), j))
  {
    NestingIndexFrom(w);
    NestFromLeast(Start(w));
  }
}
