/** The typewriter of components/typing-effect.tsx. Four state variables
    advance one timer tick at a time: a word of `texts` is typed one
    character per tick, held, deleted one character per tick, and the next
    word (cyclically) is started. The pause before deleting is a timeout the
    tick only schedules; its callback is a separate transition. */
module Typing {

  datatype TypingState = TypingState(textIndex: nat, charIndex: nat, currentText: string, isDeleting: bool)

  /** The state before the first tick. */
  const Initial := TypingState(0, 0, "", false)

  /** What every reachable state satisfies: the index names a word and the
      shown text is that word's first `charIndex` characters. */
  ghost predicate WellFormed(texts: seq<string>, s: TypingState) {
    s.textIndex < |texts| &&
    s.charIndex <= |texts[s.textIndex]| &&
    s.currentText == texts[s.textIndex][..s.charIndex]
  }

  /** `String.prototype.substring(0, length - 1)`, which clamps a negative
      end to 0. */
  function DropLast(t: string): (r: string)
    ensures |t| > 0 ==> r == t[..|t| - 1]
    ensures |t| == 0 ==> r == ""
  {
    if |t| == 0 then "" else t[..|t| - 1]
  }

  /** `handleTyping`: the next state, and whether the tick scheduled the
      switch to deleting. */
  function Step(texts: seq<string>, s: TypingState): (r: (TypingState, bool))
    requires s.textIndex < |texts|
    ensures var (t, scheduled) := r; var word := texts[s.textIndex];
      (!s.isDeleting && s.charIndex < |word| ==>
         t == s.(currentText := s.currentText + [word[s.charIndex]], charIndex := s.charIndex + 1) && !scheduled) &&
      (!s.isDeleting && s.charIndex >= |word| ==> t == s && scheduled) &&
      (s.isDeleting && s.charIndex > 0 ==>
         t == s.(currentText := DropLast(s.currentText), charIndex := s.charIndex - 1) && !scheduled) &&
      (s.isDeleting && s.charIndex == 0 ==>
         t == s.(isDeleting := false, textIndex := (s.textIndex + 1) % |texts|) && !scheduled)
    ensures WellFormed(texts, s) ==> WellFormed(texts, r.0)
  {
    var word := texts[s.textIndex];
    if !s.isDeleting then
      if s.charIndex < |word| then
        (s.(currentText := s.currentText + [word[s.charIndex]], charIndex := s.charIndex + 1), false)
      else
        (s, true)
    else if s.charIndex > 0 then
      (s.(currentText := DropLast(s.currentText), charIndex := s.charIndex - 1), false)
    else
      (s.(isDeleting := false, textIndex := (s.textIndex + 1) % |texts|), false)
  }

  /** The scheduled timeout's callback, `setIsDeleting(true)`. */
  function StartDeleting(s: TypingState): (r: TypingState)
    ensures r.isDeleting
    ensures r.textIndex == s.textIndex && r.charIndex == s.charIndex && r.currentText == s.currentText
  {
    s.(isDeleting := true)
  }

  /** `n` ticks in a row. */
  function Ticks(texts: seq<string>, s: TypingState, n: nat): (r: TypingState)
    requires WellFormed(texts, s)
    ensures WellFormed(texts, r)
    decreases n
  {
    if n == 0 then s else Ticks(texts, Step(texts, s).0, n - 1)
  }

  /** Typing from `k` characters: `|word| - k` ticks finish the word, one
      character per tick, none of them scheduling anything. */
  lemma {:induction false} TypesRest(texts: seq<string>, s: TypingState)
    requires WellFormed(texts, s) && !s.isDeleting
    ensures Ticks(texts, s, |texts[s.textIndex]| - s.charIndex)
         == TypingState(s.textIndex, |texts[s.textIndex]|, texts[s.textIndex], false)
    decreases |texts[s.textIndex]| - s.charIndex
  {
    var word := texts[s.textIndex];
    if s.charIndex < |word| {
      var t := Step(texts, s).0;
      assert word[..s.charIndex] + [word[s.charIndex]] == word[..s.charIndex + 1];
      TypesRest(texts, t);
    } else {
      assert word[..|word|] == word;
    }
  }

  /** Deleting from `k` characters: `k` ticks empty the text, one character
      per tick. */
  lemma {:induction false} DeletesRest(texts: seq<string>, s: TypingState)
    requires WellFormed(texts, s) && s.isDeleting
    ensures Ticks(texts, s, s.charIndex) == TypingState(s.textIndex, 0, "", true)
    decreases s.charIndex
  {
    if s.charIndex > 0 {
      var word := texts[s.textIndex];
      var t := Step(texts, s).0;
      assert word[..s.charIndex][..s.charIndex - 1] == word[..s.charIndex - 1];
      DeletesRest(texts, t);
    }
  }

  /** Proof helper for the cycle lemmas: running `m` ticks and then `n`
      ticks is running `m + n` ticks. */
  lemma {:induction false} TicksAdd(texts: seq<string>, s: TypingState, m: nat, n: nat)
    requires WellFormed(texts, s)
    ensures Ticks(texts, Ticks(texts, s, m), n) == Ticks(texts, s, m + n)
    decreases m
  {
    if m > 0 {
      TicksAdd(texts, Step(texts, s).0, m - 1, n);
    }
  }

  /** One whole cycle: starting a word, `|word|` ticks type it, a tick at
      full length schedules the delete, the callback starts deleting,
      `|word| + 1` ticks erase it and move to the next word, cyclically. */
  lemma FullCycle(texts: seq<string>, i: nat)
    requires i < |texts|
    ensures var typed := Ticks(texts, TypingState(i, 0, "", false), |texts[i]|);
      typed == TypingState(i, |texts[i]|, texts[i], false) &&
      Step(texts, typed) == (typed, true) &&
      Ticks(texts, StartDeleting(typed), |texts[i]| + 1) == TypingState((i + 1) % |texts|, 0, "", false)
  {
    var start := TypingState(i, 0, "", false);
    assert texts[i][..0] == "";
    TypesRest(texts, start);
    var typed := TypingState(i, |texts[i]|, texts[i], false);
    var deleting := StartDeleting(typed);
    assert texts[i][..|texts[i]|] == texts[i];
    DeletesRest(texts, deleting);
    TicksAdd(texts, deleting, |texts[i]|, 1);
  }

  /** The component's state: the four variables, updated in place by each
      tick and by the delete timeout. */
  class TypingEffect {
    const texts: seq<string>
    var textIndex: nat
    var charIndex: nat
    var currentText: string
    var isDeleting: bool

    function State(): TypingState
      reads this
    {
      TypingState(textIndex, charIndex, currentText, isDeleting)
    }

    ghost predicate Valid()
      reads this
    {
      WellFormed(texts, State())
    }

    constructor (texts: seq<string>)
      requires |texts| > 0
      ensures this.texts == texts && State() == Initial && Valid()
    {
      this.texts := texts;
      textIndex, charIndex, currentText, isDeleting := 0, 0, "", false;
    }

    /** `handleTyping`; the result says whether it scheduled the delete. */
    method HandleTyping() returns (scheduledDelete: bool)
      requires textIndex < |texts|
      modifies this
      ensures (State(), scheduledDelete) == Step(texts, old(State()))
      ensures old(Valid()) ==> Valid()
    {
      var currentWord := texts[textIndex];
      scheduledDelete := false;
      if !isDeleting {
        if charIndex < |currentWord| {
          currentText := currentText + [currentWord[charIndex]];
          charIndex := charIndex + 1;
        } else {
          scheduledDelete := true;
        }
      } else {
        if charIndex > 0 {
          currentText := if |currentText| == 0 then "" else currentText[..|currentText| - 1];
          charIndex := charIndex - 1;
        } else {
          isDeleting := false;
          textIndex := (textIndex + 1) % |texts|;
        }
      }
    }

    /** The delete timeout firing. */
    method OnDeleteTimeout()
      modifies this
      ensures State() == StartDeleting(old(State()))
      ensures old(Valid()) ==> Valid()
    {
      isDeleting := true;
    }
  }
}
