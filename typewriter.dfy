/** The `Typewriter` of the heart talk: after a start delay it reveals its
    `text` one character per timer tick, then calls `onComplete`. */
module HeartTalk {

  /** What `timerRef` holds: nothing, the start delay, or the next tick. */
  datatype Timer = NoTimer | StartDelay | NextTick

  /** The component's state besides its `text` prop; `completions` counts the
      calls to `onComplete`. */
  datatype TypingState = TypingState(
    displayText: string,
    index: nat,
    isTyping: bool,
    timer: Timer,
    completions: nat)

  /** The effect body, run on mount and whenever `text` changes: clear the
      text, the index and the flag, drop any timer, and arm the start delay
      unless the text is empty. */
  function ResetState(text: string, completions: nat): TypingState {
    TypingState("", 0, false, if text == "" then NoTimer else StartDelay, completions)
  }

  /** `typeCharacter`: append the next character and arm the next tick, or,
      at the end of the text, stop typing and complete. */
  function TypeCharacterStep(text: string, st: TypingState): TypingState {
    if st.index < |text| then
      st.(displayText := st.displayText + [text[st.index]], index := st.index + 1, timer := NextTick)
    else
      st.(isTyping := false, completions := st.completions + 1, timer := NoTimer)
  }

  /** The pending timer fires: the start delay turns typing on and types the
      first character; a tick types the next one. */
  function FireStep(text: string, st: TypingState): TypingState
    requires st.timer != NoTimer
  {
    if st.timer == StartDelay then TypeCharacterStep(text, st.(isTyping := true))
    else TypeCharacterStep(text, st)
  }

  /** `n` timer firings, stopping early once no timer is pending. */
  function Fires(text: string, st: TypingState, n: nat): TypingState
    decreases n
  {
    if n == 0 || st.timer == NoTimer then st else Fires(text, FireStep(text, st), n - 1)
  }

  /** The shown text is the first `index` characters of `text`; typing is on
      exactly while a tick is pending; a pending start delay means nothing is
      typed yet and there is something to type. */
  ghost predicate Invariant(text: string, st: TypingState) {
    && st.index <= |text|
    && st.displayText == text[..st.index]
    && (st.isTyping <==> st.timer == NextTick)
    && (st.timer == StartDelay ==> st.index == 0 && text != "")
  }

  /** The reset establishes the invariant, with nothing shown and typing off;
      an empty text arms no timer, so it is never typed and never completes. */
  lemma ResetEstablishesInvariant(text: string, completions: nat)
    ensures Invariant(text, ResetState(text, completions))
    ensures ResetState(text, completions).displayText == ""
    ensures !ResetState(text, completions).isTyping
    ensures ResetState(text, completions).timer == NoTimer <==> text == ""
    ensures text == "" ==> forall n: nat :: Fires(text, ResetState(text, completions), n) == ResetState(text, completions)
  {
  }

  /** Every firing keeps the invariant. */
  lemma FirePreservesInvariant(text: string, st: TypingState)
    requires Invariant(text, st) && st.timer != NoTimer
    ensures Invariant(text, FireStep(text, st))
  {
    if st.index < |text| {
      assert text[..st.index + 1] == text[..st.index] + [text[st.index]];
    }
  }

  /** A firing before the end appends `text[index]`, advances the index and
      leaves typing on; `onComplete` is not called. */
  lemma FireTypesNextCharacter(text: string, st: TypingState)
    requires Invariant(text, st) && st.timer != NoTimer && st.index < |text|
    ensures FireStep(text, st) == TypingState(st.displayText + [text[st.index]], st.index + 1, true, NextTick, st.completions)
  {
  }

  /** A firing at the end of the text turns typing off, calls `onComplete`
      once and arms no further timer. */
  lemma FireAtEndCompletes(text: string, st: TypingState)
    requires Invariant(text, st) && st.timer != NoTimer && st.index == |text|
    ensures FireStep(text, st) == TypingState(text, |text|, false, NoTimer, st.completions + 1)
  {
  }

  /** From any typing state, `|text| - index + 1` more firings show the whole
      text and complete exactly once; firings beyond that change nothing. */
  lemma {:induction false} TypingFinishes(text: string, st: TypingState, extra: nat)
    requires Invariant(text, st) && st.timer == NextTick
    ensures Fires(text, st, |text| - st.index + 1 + extra)
         == TypingState(text, |text|, false, NoTimer, st.completions + 1)
    decreases |text| - st.index
  {
    var next := FireStep(text, st);
    if st.index == |text| {
      FireAtEndCompletes(text, st);
      assert Fires(text, st, 1 + extra) == Fires(text, next, extra);
    } else {
      FireTypesNextCharacter(text, st);
      FirePreservesInvariant(text, st);
      TypingFinishes(text, next, extra);
    }
  }

  /** After the reset for a non-empty text, the `n`-th firing (n between 1
      and |text|) shows the first `n` characters with typing on and
      `onComplete` not yet called. */
  lemma {:induction false} TypingShowsPrefix(text: string, completions: nat, n: nat)
    requires text != "" && 1 <= n <= |text|
    ensures Fires(text, ResetState(text, completions), n)
         == TypingState(text[..n], n, true, NextTick, completions)
  {
    if n == 1 {
      assert text[..1] == [text[0]];
    } else {
      TypingShowsPrefix(text, completions, n - 1);
      var prev := Fires(text, ResetState(text, completions), n - 1);
      FiresSplit(text, ResetState(text, completions), n - 1);
      assert text[..n] == text[..n - 1] + [text[n - 1]];
      assert Fires(text, ResetState(text, completions), n) == FireStep(text, prev);
    }
  }

  /** One more firing after `n` is the firing of the state reached after `n`. */
  lemma {:induction false} FiresSplit(text: string, st: TypingState, n: nat)
    requires Fires(text, st, n).timer != NoTimer
    ensures Fires(text, st, n + 1) == FireStep(text, Fires(text, st, n))
    decreases n
  {
    if n > 0 {
      assert st.timer != NoTimer;
      FiresSplit(text, FireStep(text, st), n - 1);
    }
  }

  /** A non-empty text is shown in full after `|text| + 1` firings, with
      typing off and `onComplete` called exactly once, and stays so. */
  lemma TypesWholeText(text: string, completions: nat, extra: nat)
    requires text != ""
    ensures Fires(text, ResetState(text, completions), |text| + 1 + extra)
         == TypingState(text, |text|, false, NoTimer, completions + 1)
  {
    var start := ResetState(text, completions);
    var first := FireStep(text, start);
    ResetEstablishesInvariant(text, completions);
    FireTypesNextCharacter(text, start);
    FirePreservesInvariant(text, start);
    TypingFinishes(text, first, extra);
  }

  /** The component's live state. */
  class Typewriter {
    var text: string
    var displayText: string
    var index: nat
    var isTyping: bool
    var timer: Timer
    var completions: nat

    function State(): TypingState
      reads this
    {
      TypingState(displayText, index, isTyping, timer, completions)
    }

    ghost predicate Valid()
      reads this
    {
      Invariant(text, State())
    }

    /** Mounting: the initial state, then the effect for the first text. */
    constructor (t: string)
      ensures Valid() && text == t && State() == ResetState(t, 0)
    {
      text := t;
      displayText := "";
      isTyping := false;
      index := 0;
      timer := if t == "" then NoTimer else StartDelay;
      completions := 0;
    }

    /** `clearTimers`: cancel whatever timer is pending. */
    method ClearTimers()
      modifies this`timer
      ensures timer == NoTimer
    {
      timer := NoTimer;
    }

    /** The effect re-running for a new `text` (its cleanup first cancels the
        pending timer). */
    method Reset(t: string)
      modifies this
      ensures Valid() && text == t && State() == ResetState(t, old(completions))
    {
      text := t;
      displayText := "";
      isTyping := false;
      index := 0;
      ClearTimers();
      if t == "" {
        return;
      }
      timer := StartDelay;
    }

    /** Unmounting: the cleanup cancels the pending timer; the rest of the
        state is left as it was. */
    method Unmount()
      modifies this
      ensures timer == NoTimer && isTyping == old(isTyping)
      ensures text == old(text) && displayText == old(displayText) && index == old(index)
      ensures completions == old(completions)
    {
      ClearTimers();
    }

    /** `typeCharacter`. */
    method TypeCharacter()
      modifies this
      ensures text == old(text) && State() == TypeCharacterStep(text, old(State()))
    {
      if index < |text| {
        displayText := displayText + [text[index]];
        index := index + 1;
        timer := NextTick;
      } else {
        isTyping := false;
        completions := completions + 1;
        timer := NoTimer;
      }
    }

    /** The pending timer fires. */
    method TimerFires()
      requires Valid() && timer != NoTimer
      modifies this
      ensures Valid() && text == old(text) && State() == FireStep(text, old(State()))
    {
      FirePreservesInvariant(text, State());
      if timer == StartDelay {
        isTyping := true;
      }
      TypeCharacter();
    }
  }
}
