/** The typewriter effect of the hero section: a text that types out the
    current word one character per tick, waits, deletes it one character per
    tick at double speed, and moves on to the next word of the list.

    Timers are discrete events: `Tick` is the firing of the per-character
    timeout, `PauseElapsed` is the firing of the pause timeout that the tick
    completing a word arms. */
module Typewriter {

  /** `s.substring(0, end)` with the end index clamped into [0, |s|] as
      JavaScript clamps it. Lengths and indices count characters, where
      JavaScript counts UTF-16 code units; the two agree on words without
      characters outside the Basic Multilingual Plane. */
  function Substring(s: string, end: int): (r: string)
    ensures r <= s
    ensures |r| == if end < 0 then 0 else if end > |s| then |s| else end
  {
    if end < 0 then "" else if end > |s| then s else s[..end]
  }

  /** The three state cells of the hook, plus whether a pause timeout is
      outstanding (armed but not yet fired). */
  datatype State = State(text: string, wordIndex: nat, isDeleting: bool, pausePending: bool)

  /** The state on mount: nothing typed, first word, typing. */
  const Initial: State := State("", 0, false, false)

  /** The state at the start of word `i`. */
  function WordStart(i: nat): State {
    State("", i, false, false)
  }

  /** What every reachable state satisfies: the index is in range, the text is
      a prefix of the current word, and a pause is only outstanding on a
      fully typed word that is not being deleted. */
  predicate Valid(words: seq<string>, s: State) {
    0 < |words| && s.wordIndex < |words| && s.text <= words[s.wordIndex] &&
    (s.pausePending ==> !s.isDeleting && s.text == words[s.wordIndex])
  }

  /** One firing of the per-character timeout. */
  function OnTick(words: seq<string>, s: State): (r: State)
    requires s.wordIndex < |words|
    ensures r.wordIndex < |words|
    ensures Valid(words, s) ==> Valid(words, r)
    // only the pause event turns deletion on
    ensures r.isDeleting ==> s.isDeleting
    // typing a partial word adds exactly the next character of the word
    ensures Valid(words, s) && !s.isDeleting && |s.text| < |words[s.wordIndex]| ==>
      r.text == s.text + [words[s.wordIndex][|s.text|]] &&
      r.wordIndex == s.wordIndex && !r.isDeleting &&
      r.pausePending == (|r.text| == |words[s.wordIndex]|)
    // typing on a complete word changes nothing
    ensures Valid(words, s) && !s.isDeleting && s.text == words[s.wordIndex] ==> r == s
    // deleting a non-empty text removes its last character and keeps deleting
    ensures s.isDeleting && |s.text| > 0 && s.text <= words[s.wordIndex] ==>
      r == s.(text := s.text[..|s.text| - 1])
    // deleting an empty text switches to typing the next word
    ensures s.isDeleting && s.text == "" ==>
      r == s.(wordIndex := (s.wordIndex + 1) % |words|, isDeleting := false)
  {
    var current := words[s.wordIndex];
    if !s.isDeleting then
      var armed := |s.text| + 1 == |current|;
      s.(text := Substring(current, |s.text| + 1), pausePending := s.pausePending || armed)
    else
      var text := Substring(current, |s.text| - 1);
      if |s.text| == 0 then
        s.(text := text, isDeleting := false, wordIndex := (s.wordIndex + 1) % |words|)
      else
        s.(text := text)
  }

  /** The firing of the pause timeout: deletion starts. With no pause
      outstanding nothing fires, so nothing changes. */
  function OnPause(s: State): (r: State)
    ensures r.text == s.text && r.wordIndex == s.wordIndex && !r.pausePending
    ensures r.isDeleting == (s.isDeleting || s.pausePending)
    ensures forall words :: Valid(words, s) ==> Valid(words, r)
  {
    if s.pausePending then s.(isDeleting := true, pausePending := false) else s
  }

  /** The delay before the next tick: half the typing speed while deleting. */
  function TickDelay(speed: real, isDeleting: bool): (r: real)
    ensures isDeleting ==> 2.0 * r == speed
    ensures !isDeleting ==> r == speed
  {
    if isDeleting then speed / 2.0 else speed
  }

  /** `n` ticks in a row, with no pause event in between. */
  function Ticks(words: seq<string>, s: State, n: nat): (r: State)
    requires s.wordIndex < |words|
    ensures r.wordIndex < |words|
    decreases n
  {
    if n == 0 then s else Ticks(words, OnTick(words, s), n - 1)
  }

  /** One full cycle from the start of a word: type it out, let the pause
      elapse, delete it. */
  function Cycle(words: seq<string>, s: State): (r: State)
    requires s.wordIndex < |words|
    ensures r.wordIndex < |words|
  {
    var n := |words[s.wordIndex]|;
    Ticks(words, OnPause(Ticks(words, s, n)), n + 1)
  }

  /** `m` full cycles from the initial state. */
  function Cycles(words: seq<string>, m: nat): (r: State)
    requires 0 < |words|
    ensures r.wordIndex < |words|
  {
    if m == 0 then Initial else Cycle(words, Cycles(words, m - 1))
  }

  lemma {:induction false} TicksAdd(words: seq<string>, s: State, a: nat, b: nat)
    requires s.wordIndex < |words|
    ensures Ticks(words, s, a + b) == Ticks(words, Ticks(words, s, a), b)
    decreases a
  {
    if a > 0 {
      TicksAdd(words, OnTick(words, s), a - 1, b);
    }
  }

  /** Ticks keep the state valid. */
  lemma {:induction false} TicksValid(words: seq<string>, s: State, n: nat)
    requires Valid(words, s)
    ensures Valid(words, Ticks(words, s, n))
    decreases n
  {
    if n > 0 {
      TicksValid(words, OnTick(words, s), n - 1);
    }
  }

  /** Typing from the first `j` characters of word `i`: after `k` more ticks
      the first `j + k` characters are shown, and the pause is armed exactly
      when a tick has completed the word. */
  lemma {:induction false} TypingFrom(words: seq<string>, i: nat, j: nat, k: nat)
    requires i < |words| && j + k <= |words[i]|
    ensures Ticks(words, State(words[i][..j], i, false, false), k)
         == State(words[i][..j + k], i, false, k > 0 && j + k == |words[i]|)
    decreases k
  {
    if k > 0 {
      var w := words[i];
      assert OnTick(words, State(w[..j], i, false, false))
          == State(w[..j + 1], i, false, j + 1 == |w|);
      TypingFrom(words, i, j + 1, k - 1);
    }
  }

  /** Deleting from the first `j` characters of word `i`: after `k <= j`
      ticks the first `j - k` characters are shown and deletion goes on. */
  lemma {:induction false} DeletingFrom(words: seq<string>, i: nat, j: nat, k: nat)
    requires i < |words| && k <= j <= |words[i]|
    ensures Ticks(words, State(words[i][..j], i, true, false), k)
         == State(words[i][..j - k], i, true, false)
    decreases k
  {
    if k > 0 {
      var w := words[i];
      assert w[..j][..j - 1] == w[..j - 1];
      DeletingFrom(words, i, j - 1, k - 1);
    }
  }

  /** A word of length L is typed in L ticks, after which the pause is armed
      (for a non-empty word). */
  lemma TypeWord(words: seq<string>, i: nat)
    requires i < |words|
    ensures Ticks(words, WordStart(i), |words[i]|) == State(words[i], i, false, |words[i]| > 0)
  {
    TypingFrom(words, i, 0, |words[i]|);
    assert words[i][..0] == "" && words[i][..|words[i]|] == words[i];
  }

  /** A word of length L takes exactly L + 1 deleting ticks: after L of them
      the text is empty and still deleting; the next one moves to the next
      word of the list. */
  lemma DeleteWord(words: seq<string>, i: nat)
    requires i < |words|
    ensures Ticks(words, State(words[i], i, true, false), |words[i]|) == State("", i, true, false)
    ensures Ticks(words, State(words[i], i, true, false), |words[i]| + 1)
         == WordStart((i + 1) % |words|)
  {
    var n := |words[i]|;
    assert words[i][..n] == words[i];
    DeletingFrom(words, i, n, n);
    TicksAdd(words, State(words[i], i, true, false), n, 1);
  }

  /** A full cycle on a non-empty word ends at the start of the next word,
      cyclically in list order. */
  lemma CycleAdvances(words: seq<string>, i: nat)
    requires i < |words| && |words[i]| > 0
    ensures Cycle(words, WordStart(i)) == WordStart((i + 1) % |words|)
  {
    TypeWord(words, i);
    DeleteWord(words, i);
  }

  /** An empty word stalls the machine: ticks never arm the pause, so the
      state never changes again. */
  lemma {:induction false} EmptyWordStalls(words: seq<string>, i: nat, n: nat)
    requires i < |words| && words[i] == ""
    ensures Ticks(words, WordStart(i), n) == WordStart(i)
    ensures OnPause(WordStart(i)) == WordStart(i)
  {
    TypingFrom(words, i, 0, 0);
    if n > 0 {
      assert OnTick(words, WordStart(i)) == WordStart(i);
      EmptyWordStalls(words, i, n - 1);
    }
  }

  /** With every word non-empty, the m-th cycle starts on word m mod |words|:
      the words are shown in list order, round and round. */
  lemma {:induction false} CyclesInOrder(words: seq<string>, m: nat)
    requires 0 < |words|
    requires forall i :: 0 <= i < |words| ==> |words[i]| > 0
    ensures Cycles(words, m) == WordStart(m % |words|)
  {
    if m > 0 {
      var n := |words|;
      var i := (m - 1) % n;
      assert (i + 1) % n == m % n by {
        NextIndex(m - 1, n);
      }
      assert Cycle(words, WordStart(i)) == WordStart((i + 1) % n) by {
        CycleAdvances(words, i);
      }
      CyclesInOrder(words, m - 1);
      assert Cycles(words, m) == Cycle(words, Cycles(words, m - 1));
    } else {
      assert 0 % |words| == 0;
    }
  }

  lemma {:induction false} NextIndex(k: nat, n: nat)
    requires 0 < n
    ensures (k % n + 1) % n == (k + 1) % n
    decreases k
  {
    if k >= n {
      NextIndex(k - n, n);
      ShiftMod(k - n, n);
      ShiftMod(k + 1 - n, n);
    }
  }

  lemma ShiftMod(x: nat, n: nat)
    requires 0 < n
    ensures (x + n) % n == x % n
  {
    ModUnique(x + n, n, x / n + 1, x % n);
  }

  /** The remainder is the unique r in [0, n) with a == q * n + r. */
  lemma ModUnique(a: int, n: int, q: int, r: int)
    requires 0 < n && 0 <= r < n && a == q * n + r
    ensures a % n == r
  {
    var q2, r2 := a / n, a % n;
    assert (q - q2) * n == r2 - r;
    if q - q2 >= 1 {
    } else if q - q2 <= -1 {
    }
  }

  /** The role list shown in the hero section. */
  const Roles: seq<string> := ["Data Engineer", "GenAI Engineer", "Analytics Engineer"]

  /** The hero's roles come back to the first one after three cycles. */
  lemma RolesCycle()
    ensures Cycles(Roles, 1) == WordStart(1)
    ensures Cycles(Roles, 3) == Initial
  {
    CyclesInOrder(Roles, 1);
    CyclesInOrder(Roles, 3);
  }

  /** The hook's state cells, updated in place by the timer callbacks. */
  class Hook {
    const words: seq<string>
    const speed: real
    const pause: real
    var text: string
    var wordIndex: nat
    var isDeleting: bool
    var pausePending: bool

    function Current(): State
      reads this
    {
      State(text, wordIndex, isDeleting, pausePending)
    }

    predicate Inv()
      reads this
    {
      Valid(words, Current())
    }

    /** `useTypewriter(words, speed, pause)`; the defaults are 100 and 2000. */
    constructor (words: seq<string>, speed: real, pause: real)
      requires 0 < |words|
      ensures this.words == words && this.speed == speed && this.pause == pause
      ensures Current() == Initial && Inv()
    {
      this.words, this.speed, this.pause := words, speed, pause;
      text, wordIndex, isDeleting, pausePending := "", 0, false, false;
    }

    /** The delay the effect schedules the next tick with. */
    function Delay(): (r: real)
      reads this
      ensures isDeleting ==> 2.0 * r == speed
      ensures !isDeleting ==> r == speed
    {
      TickDelay(speed, isDeleting)
    }

    method Tick()
      requires Inv()
      modifies this
      ensures Inv()
      ensures Current() == OnTick(words, old(Current()))
    {
      var current := words[wordIndex];
      if !isDeleting {
        var armed := |text| + 1 == |current|;
        text := Substring(current, |text| + 1);
        if armed {
          pausePending := true;
        }
      } else {
        var wasEmpty := |text| == 0;
        text := Substring(current, |text| - 1);
        if wasEmpty {
          isDeleting := false;
          wordIndex := (wordIndex + 1) % |words|;
        }
      }
    }

    method PauseElapsed()
      requires Inv()
      modifies this
      ensures Inv()
      ensures Current() == OnPause(old(Current()))
    {
      if pausePending {
        isDeleting := true;
        pausePending := false;
      }
    }
  }

  /** The hook as the hero section uses it: two ticks, then the first role
      reads "Da". */
  method HeroStart() returns (shown: string)
    ensures shown == "Da"
  {
    var hook := new Hook(Roles, 80.0, 2500.0);
    hook.Tick();
    hook.Tick();
    shown := hook.text;
  }
}
