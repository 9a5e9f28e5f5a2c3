/** The typed-text animation of the hero section: a typewriter that types a
    phrase one character per tick, erases it one character per tick, and moves
    on to the next phrase, forever. The module-level globals `typingIndex`,
    `charIndex` and `isDeleting` become the fields of class `Typewriter`; each
    `setTimeout(typeText, typeSpeed)` becomes one more call of `Tick`, which
    returns the text it displayed and the delay it asked for. */
module Typewriter {

  /** `config.typingSpeed`: delay after an ordinary typing tick (ms). */
  const TypingSpeed := 100
  /** `config.deletingSpeed`: delay after every erasing tick (ms). */
  const DeletingSpeed := 50
  /** `config.delayBetweenWords`: delay after the tick that completes a phrase (ms). */
  const DelayBetweenWords := 2000

  /** The phrases the portfolio cycles through, in order. */
  const TypingTexts: seq<string> := [
    "Desenvolvedor Iniciante",
    "Contador",
    "Músico instrumentista",
    "Criador de Soluções"
  ]

  /** The three globals of the animation, as one value. */
  datatype Cursor = Cursor(typingIndex: int, charIndex: int, isDeleting: bool)

  /** What one tick shows and how long it waits before the next tick. */
  datatype Frame = Frame(text: string, delay: int)

  /** The effect of one tick: the globals afterwards and the frame shown. */
  datatype TickResult = TickResult(next: Cursor, frame: Frame)

  /** The state in which the animation starts. */
  const Start := Cursor(0, 0, false)

  function Min(a: int, b: int): int { if a <= b then a else b }
  function Max(a: int, b: int): int { if a <= b then b else a }

  /** `n` forced into `[0, len]`, as `String.prototype.substring` does with its arguments. */
  function Clamp(n: int, len: nat): (r: nat)
    ensures r <= len
    ensures 0 <= n <= len ==> r == n
  {
    if n < 0 then 0 else if n > len then len else n
  }

  /** JavaScript's `s.substring(start, end)`: both arguments are clamped into
      `[0, |s|]` and swapped when `start > end`. */
  function JsSubstring(s: string, start: int, end: int): (r: string)
    ensures 0 <= start <= end <= |s| ==> r == s[start..end]
    ensures 0 <= end <= start <= |s| ==> r == s[end..start]
    ensures start == 0 ==> r == s[..Clamp(end, |s|)]
  {
    var a, b := Clamp(start, |s|), Clamp(end, |s|);
    s[Min(a, b)..Max(a, b)]
  }

  /** The phrase index after `i` among `n` phrases, wrapping to 0 after the
      last. The code writes it `(i + 1) % n` (see `NextIndexIsMod`); the
      spelling without `%` keeps the proofs in linear arithmetic. */
  function NextIndex(i: int, n: int): int
  {
    if i + 1 < n then i + 1 else 0
  }

  lemma NextIndexIsMod(i: int, n: int)
    requires 0 <= i < n
    ensures NextIndex(i, n) == (i + 1) % n
  {
  }

  /** Every phrase can be typed: there is at least one, and none is empty. */
  predicate WellFormed(texts: seq<string>)
  {
    |texts| > 0 && forall i :: 0 <= i < |texts| ==> |texts[i]| > 0
  }

  /** The invariant the animation keeps between ticks: the phrase index is in
      range; while typing, fewer characters are shown than the phrase has;
      while erasing, at least one and at most all of them are. */
  predicate Invariant(texts: seq<string>, c: Cursor)
  {
    0 <= c.typingIndex < |texts| &&
    if c.isDeleting then 1 <= c.charIndex <= |texts[c.typingIndex]|
    else 0 <= c.charIndex < |texts[c.typingIndex]|
  }

  /** One call of `typeText`. The only thing the code needs is a phrase at
      `typingIndex`; it never leaves the range of phrase indices. */
  function Step(texts: seq<string>, c: Cursor): (r: TickResult)
    requires 0 <= c.typingIndex < |texts|
    ensures 0 <= r.next.typingIndex < |texts|
  {
    var currentText := texts[c.typingIndex];
    // Both branches pass `substring` the value `charIndex` is about to take.
    var charIndex := if c.isDeleting then c.charIndex - 1 else c.charIndex + 1;
    var shown := JsSubstring(currentText, 0, charIndex);
    var typeSpeed := if c.isDeleting then DeletingSpeed else TypingSpeed;
    if !c.isDeleting && charIndex == |currentText| then
      TickResult(Cursor(c.typingIndex, charIndex, true), Frame(shown, DelayBetweenWords))
    else if c.isDeleting && charIndex == 0 then
      TickResult(Cursor(NextIndex(c.typingIndex, |texts|), charIndex, false), Frame(shown, typeSpeed))
    else
      TickResult(Cursor(c.typingIndex, charIndex, c.isDeleting), Frame(shown, typeSpeed))
  }

  /** The globals after `n` ticks from `c`. */
  function After(texts: seq<string>, c: Cursor, n: nat): (r: Cursor)
    requires 0 <= c.typingIndex < |texts|
    ensures 0 <= r.typingIndex < |texts|
    decreases n
  {
    if n == 0 then c else After(texts, Step(texts, c).next, n - 1)
  }

  /** The frames shown by `n` ticks from `c`, in order. */
  function Frames(texts: seq<string>, c: Cursor, n: nat): (r: seq<Frame>)
    requires 0 <= c.typingIndex < |texts|
    ensures |r| == n
    decreases n
  {
    if n == 0 then [] else [Step(texts, c).frame] + Frames(texts, Step(texts, c).next, n - 1)
  }

  /** Total length of all phrases. */
  function TotalLength(texts: seq<string>): nat
  {
    if texts == [] then 0 else |texts[0]| + TotalLength(texts[1..])
  }

  // ---------------------------------------------------------------------
  // One tick
  // ---------------------------------------------------------------------

  /** The animation starts in a state that satisfies the invariant. */
  lemma StartInvariant(texts: seq<string>)
    requires WellFormed(texts)
    ensures Invariant(texts, Start)
  {
    assert |texts[0]| > 0;
  }

  /** Each tick keeps the invariant; this relies on every phrase being non-empty. */
  lemma StepInvariant(texts: seq<string>, c: Cursor)
    requires WellFormed(texts) && Invariant(texts, c)
    ensures Invariant(texts, Step(texts, c).next)
  {
    var i := NextIndex(c.typingIndex, |texts|);
    assert |texts[i]| > 0;
  }

  /** After every tick the displayed text is the prefix of the current phrase
      whose length is `charIndex`, including the empty text shown on the tick
      that moves on to the next phrase. */
  lemma StepShowsPrefix(texts: seq<string>, c: Cursor)
    requires WellFormed(texts) && Invariant(texts, c)
    ensures var r := Step(texts, c);
      0 <= r.next.charIndex <= |texts[r.next.typingIndex]| &&
      r.frame.text == texts[r.next.typingIndex][..r.next.charIndex]
  {
    StepInvariant(texts, c);
  }

  /** How a tick moves the globals: `charIndex` moves by exactly one in the
      current direction; erasing starts exactly on the tick that reaches the
      phrase length; the phrase index changes only on the erasing tick that
      reaches 0, and then to the next index modulo the number of phrases. */
  lemma StepRule(texts: seq<string>, c: Cursor)
    requires 0 <= c.typingIndex < |texts|
    ensures var r := Step(texts, c);
      var L := |texts[c.typingIndex]|;
      r.next.charIndex == (if c.isDeleting then c.charIndex - 1 else c.charIndex + 1) &&
      (r.next.isDeleting && !c.isDeleting <==> !c.isDeleting && c.charIndex + 1 == L) &&
      (!r.next.isDeleting && c.isDeleting <==> c.isDeleting && c.charIndex == 1) &&
      r.next.typingIndex == (if c.isDeleting && c.charIndex == 1
                             then (c.typingIndex + 1) % |texts| else c.typingIndex)
  {
    NextIndexIsMod(c.typingIndex, |texts|);
    if c.isDeleting {
      assert Step(texts, c).next.isDeleting == (c.charIndex != 1);
    } else {
      assert Step(texts, c).next.isDeleting == (c.charIndex + 1 == |texts[c.typingIndex]|);
    }
  }

  /** The delay a tick asks for: 2000 after the tick that completes a phrase,
      100 after any other typing tick, 50 after every erasing tick, including
      the one that moves on to the next phrase (there is no separate pause). */
  lemma DelayRule(texts: seq<string>, c: Cursor)
    requires 0 <= c.typingIndex < |texts|
    ensures var r := Step(texts, c);
      r.frame.delay == (if c.isDeleting then DeletingSpeed
                        else if c.charIndex + 1 == |texts[c.typingIndex]| then DelayBetweenWords
                        else TypingSpeed)
  {
  }

  // ---------------------------------------------------------------------
  // Many ticks
  // ---------------------------------------------------------------------

  /** A run of m > 0 ticks is one tick followed by a run of m - 1. */
  lemma Unroll(texts: seq<string>, c: Cursor, m: nat)
    requires 0 <= c.typingIndex < |texts| && m > 0
    ensures After(texts, c, m) == After(texts, Step(texts, c).next, m - 1)
    ensures Frames(texts, c, m) == [Step(texts, c).frame] + Frames(texts, Step(texts, c).next, m - 1)
  {
  }

  /** Running `a` ticks and then `b` ticks is running `a + b` ticks. */
  lemma {:induction false} AfterAdd(texts: seq<string>, c: Cursor, a: nat, b: nat)
    requires 0 <= c.typingIndex < |texts|
    ensures After(texts, c, a + b) == After(texts, After(texts, c, a), b)
    decreases a
  {
    if a > 0 {
      AfterAdd(texts, Step(texts, c).next, a - 1, b);
    }
  }

  /** `AfterAdd` with the intermediate state named, so that it can be used
      without unfolding the run up to it. */
  lemma AfterThrough(texts: seq<string>, c: Cursor, a: nat, b: nat, mid: Cursor)
    requires 0 <= c.typingIndex < |texts|
    requires After(texts, c, a) == mid
    ensures 0 <= mid.typingIndex < |texts|
    ensures After(texts, c, a + b) == After(texts, mid, b)
  {
    AfterAdd(texts, c, a, b);
  }

  /** The `t`-th frame of a run is the frame of one tick from the state after `t` ticks. */
  lemma {:induction false} FramesAt(texts: seq<string>, c: Cursor, n: nat, t: nat)
    requires 0 <= c.typingIndex < |texts|
    requires t < n
    ensures Frames(texts, c, n)[t] == Step(texts, After(texts, c, t)).frame
    decreases t
  {
    if t > 0 {
      var next := Step(texts, c).next;
      FramesAt(texts, next, n - 1, t - 1);
      assert Frames(texts, c, n)[t] == Frames(texts, next, n - 1)[t - 1];
      assert After(texts, c, t) == After(texts, next, t - 1);
    }
  }

  /** Where phrase `i` stands `t` ticks after its typing began (0 <= t <= 2L):
      typing `t` characters for t < L, erasing with `2L - t` left for
      L <= t < 2L, and at t = 2L typing the next phrase from scratch. */
  function PhrasePosition(texts: seq<string>, i: int, t: nat): Cursor
    requires 0 <= i < |texts|
  {
    var L := |texts[i]|;
    if t < L then Cursor(i, t, false)
    else if t < 2 * L then Cursor(i, 2 * L - t, true)
    else Cursor(NextIndex(i, |texts|), 0, false)
  }

  /** The run of one phrase, tick by tick. */
  lemma {:induction false} PhraseRun(texts: seq<string>, i: int, t: nat)
    requires WellFormed(texts) && 0 <= i < |texts|
    requires t <= 2 * |texts[i]|
    ensures After(texts, Cursor(i, 0, false), t) == PhrasePosition(texts, i, t)
    decreases t
  {
    if t > 0 {
      PhraseRun(texts, i, t - 1);
      AfterAdd(texts, Cursor(i, 0, false), t - 1, 1);
    }
  }

  /** What phrase `i` displays: on tick t (counted from 0) it shows its first
      t + 1 characters while typing and its first 2L - t - 1 while erasing,
      waiting 100 ms, then 2000 ms once complete, then 50 ms per erased
      character. */
  lemma PhraseFrames(texts: seq<string>, i: int, t: nat)
    requires WellFormed(texts) && 0 <= i < |texts|
    requires t < 2 * |texts[i]|
    ensures var L := |texts[i]|;
      Frames(texts, Cursor(i, 0, false), 2 * L)[t] ==
        if t < L then Frame(texts[i][..t + 1], if t + 1 < L then TypingSpeed else DelayBetweenWords)
        else Frame(texts[i][..2 * L - t - 1], DeletingSpeed)
  {
    FramesAt(texts, Cursor(i, 0, false), 2 * |texts[i]|, t);
    PhraseRun(texts, i, t);
  }

  /** Typing and erasing a phrase of length L takes exactly 2L ticks and ends
      typing the next phrase (modulo the number of phrases) from scratch. */
  lemma PhraseCycle(texts: seq<string>, i: int)
    requires WellFormed(texts) && 0 <= i < |texts|
    ensures After(texts, Cursor(i, 0, false), 2 * |texts[i]|) == Cursor((i + 1) % |texts|, 0, false)
  {
    NextIndexIsMod(i, |texts|);
    PhraseRun(texts, i, 2 * |texts[i]|);
  }

  /** Starting to type phrase j, the animation gets through phrases j, ..., N-1
      in twice their total length and then types phrase 0 from scratch. */
  lemma {:induction false} PhrasesFrom(texts: seq<string>, j: nat)
    requires WellFormed(texts) && j < |texts|
    ensures After(texts, Cursor(j, 0, false), 2 * TotalLength(texts[j..])) == Start
    decreases |texts| - j
  {
    var c := Cursor(j, 0, false);
    var next := if j + 1 < |texts| then Cursor(j + 1, 0, false) else Start;
    var rest := 2 * TotalLength(texts[j + 1..]);
    PhraseRun(texts, j, 2 * |texts[j]|);
    AfterThrough(texts, c, 2 * |texts[j]|, rest, next);
    TotalLengthFrom(texts, j);
    if j + 1 < |texts| {
      PhrasesFrom(texts, j + 1);
    } else {
      assert texts[j + 1..] == [];
    }
  }

  /** One step of unfolding `TotalLength` at index j. */
  lemma TotalLengthFrom(texts: seq<string>, j: nat)
    requires j < |texts|
    ensures TotalLength(texts[j..]) == |texts[j]| + TotalLength(texts[j + 1..])
  {
    assert texts[j..][1..] == texts[j + 1..];
  }

  /** After every phrase has been typed and erased once, the globals are back
      at their initial values (0, 0, false): the animation is periodic. */
  lemma FullCycle(texts: seq<string>)
    requires WellFormed(texts)
    ensures After(texts, Start, 2 * TotalLength(texts)) == Start
  {
    PhrasesFrom(texts, 0);
    assert texts[0..] == texts;
  }

  /** The portfolio's own phrases can be animated, and their cycle is 142 ticks. */
  lemma SiteCycle()
    ensures WellFormed(TypingTexts)
    ensures After(TypingTexts, Start, 142) == Start
  {
    assert |TypingTexts[0]| == 23 && |TypingTexts[1]| == 8;
    assert |TypingTexts[2]| == 21 && |TypingTexts[3]| == 19;
    assert TotalLength(TypingTexts[4..]) == 0;
    assert TotalLength(TypingTexts[3..]) == 19;
    assert TotalLength(TypingTexts[2..]) == 40;
    assert TotalLength(TypingTexts[1..]) == 48;
    assert TotalLength(TypingTexts) == 71;
    FullCycle(TypingTexts);
  }

  // ---------------------------------------------------------------------
  // The animation as an object
  // ---------------------------------------------------------------------

  /** The animation's mutable state: the three globals and the text content of
      the `typing-text` element. */
  class Typewriter {
    const texts: seq<string>
    var typingIndex: int
    var charIndex: int
    var isDeleting: bool
    var textContent: string

    function State(): Cursor
      reads this
    {
      Cursor(typingIndex, charIndex, isDeleting)
    }

    ghost predicate Valid()
      reads this
    {
      WellFormed(texts) && Invariant(texts, State())
    }

    /** The globals' initial values; the element keeps whatever it held. */
    constructor (texts: seq<string>, initialContent: string)
      requires WellFormed(texts)
      ensures Valid()
      ensures this.texts == texts && State() == Start && textContent == initialContent
    {
      this.texts := texts;
      typingIndex, charIndex, isDeleting := 0, 0, false;
      textContent := initialContent;
      new;
      StartInvariant(texts);
    }

    /** One call of `typeText`: update the element, move the globals, and
        return what was displayed and the delay before the next call. */
    method Tick() returns (shown: string, delay: int)
      requires Valid()
      modifies this
      ensures Valid()
      ensures Step(texts, old(State())) == TickResult(State(), Frame(shown, delay))
      ensures textContent == shown
      ensures 0 <= charIndex <= |texts[typingIndex]| && shown == texts[typingIndex][..charIndex]
    {
      ghost var before := State();
      ghost var r := Step(texts, before);
      StepInvariant(texts, before);
      StepShowsPrefix(texts, before);
      NextIndexIsMod(before.typingIndex, |texts|);
      var currentText := texts[typingIndex];
      if isDeleting {
        textContent := JsSubstring(currentText, 0, charIndex - 1);
        charIndex := charIndex - 1;
        assert textContent == r.frame.text && charIndex == r.next.charIndex;
      } else {
        textContent := JsSubstring(currentText, 0, charIndex + 1);
        charIndex := charIndex + 1;
        assert textContent == r.frame.text && charIndex == r.next.charIndex;
      }
      var typeSpeed := if isDeleting then DeletingSpeed else TypingSpeed;
      if !isDeleting && charIndex == |currentText| {
        typeSpeed := DelayBetweenWords;
        isDeleting := true;
      } else if isDeleting && charIndex == 0 {
        isDeleting := false;
        typingIndex := (typingIndex + 1) % |texts|;
      }
      shown, delay := textContent, typeSpeed;
      assert r == TickResult(State(), Frame(shown, delay));
    }

    /** `n` self-scheduled calls of `typeText`, collecting the frames shown:
        one call, then the `n - 1` that it schedules. */
    method Run(n: nat) returns (frames: seq<Frame>)
      requires Valid()
      modifies this
      ensures Valid()
      ensures State() == After(texts, old(State()), n)
      ensures frames == Frames(texts, old(State()), n)
      ensures textContent == if n == 0 then old(textContent) else frames[n - 1].text
      decreases n
    {
      if n == 0 {
        frames := [];
      } else {
        ghost var pre := State();
        var shown, delay := Tick();
        var rest := Run(n - 1);
        frames := [Frame(shown, delay)] + rest;
        Unroll(texts, pre, n);
      }
    }
  }
}
