/**
  The hero banner's typewriter effect (src/components/Hero.tsx).

  The component keeps three pieces of state: the text typed so far
  (`displayText`), the phrase being typed (`currentWordIndex`) and the
  direction (`isDeleting`). Every time one of them changes, an effect looks at
  the new state and does exactly one thing: it arms the 2000 ms pause, it
  moves on to the next phrase at once, or it arms a 100 ms (typing) or 50 ms
  (deleting) timer that adds or removes one character. Here one call of `Step`
  (or of `Sequencer.Tick`) is that one thing, timer included.
 */
module Typewriter {

  /** The phrases the hero banner cycles through. */
  const HeroPhrases: seq<string> := [
    "Cybersecurity Engineer",
    "SOC Operations Specialist",
    "Threat Hunter",
    "Security Analyst",
    "Cloud Security Expert"
  ]

  /** Delays, in milliseconds, of the three timers the effect arms. */
  const PauseDelay: nat := 2000
  const TypeDelay: nat := 100
  const DeleteDelay: nat := 50

  datatype State = State(displayText: string, currentWordIndex: nat, isDeleting: bool)

  /** The state the component mounts with. */
  const Initial := State("", 0, false)

  predicate IsPrefix(p: string, w: string) {
    |p| <= |w| && p == w[..|p|]
  }

  /** The invariant of the effect: the index is in range and the text typed so far
      is a prefix of the current phrase. */
  predicate Inv(words: seq<string>, s: State) {
    s.currentWordIndex < |words| && IsPrefix(s.displayText, words[s.currentWordIndex])
  }

  /** `w.slice(0, n)` for a non-negative n: the first n characters, or all of w. */
  function SliceTo(w: string, n: nat): (r: string)
    ensures |r| == if n <= |w| then n else |w|
    ensures IsPrefix(r, w)
  {
    if n <= |w| then w[..n] else w
  }

  /** `s.slice(0, -1)`: everything but the last character; the empty string stays empty. */
  function DropLast(s: string): (r: string)
    ensures |s| > 0 ==> r + [s[|s| - 1]] == s
    ensures |s| == 0 ==> r == ""
  {
    if |s| == 0 then "" else s[..|s| - 1]
  }

  /** The updater handed to `setDisplayText` by the character timer. */
  function NextText(prev: string, word: string, isDeleting: bool): (r: string)
    ensures IsPrefix(prev, word) ==> IsPrefix(r, word)
    ensures isDeleting && prev != "" ==> r + [prev[|prev| - 1]] == prev
    ensures !isDeleting && IsPrefix(prev, word) && prev != word ==> r == prev + [word[|prev|]]
  {
    if isDeleting then DropLast(prev) else SliceTo(word, |prev| + 1)
  }

  /** The delay of the character timer. */
  function TickDelay(isDeleting: bool): nat {
    if isDeleting then DeleteDelay else TypeDelay
  }

  /** What the effect does for a given state. */
  datatype Action = Pause | StartNext | Edit

  function ActionOf(words: seq<string>, s: State): Action
    requires s.currentWordIndex < |words|
  {
    var currentWord := words[s.currentWordIndex];
    if s.displayText == currentWord && !s.isDeleting then Pause
    else if s.displayText == "" && s.isDeleting then StartNext
    else Edit
  }

  /** One firing of the effect together with the timer it arms. */
  function Step(words: seq<string>, s: State): (r: State)
    requires s.currentWordIndex < |words|
    ensures r.currentWordIndex < |words|
    ensures Inv(words, s) ==> Inv(words, r)
  {
    match ActionOf(words, s)
    case Pause => s.(isDeleting := true)
    case StartNext => State(s.displayText, (s.currentWordIndex + 1) % |words|, false)
    case Edit => s.(displayText := NextText(s.displayText, words[s.currentWordIndex], s.isDeleting))
  }

  /** How long the effect waits before the change `Step` describes takes place. */
  function Wait(words: seq<string>, s: State): (ms: nat)
    requires s.currentWordIndex < |words|
    ensures ms == PauseDelay <==> ActionOf(words, s) == Pause
    ensures ms == 0 <==> ActionOf(words, s) == StartNext
    ensures ActionOf(words, s) == Edit ==> ms <= TypeDelay
  {
    match ActionOf(words, s)
    case Pause => PauseDelay
    case StartNext => 0
    case Edit => TickDelay(s.isDeleting)
  }

  /** k firings in a row. */
  function Run(words: seq<string>, s: State, k: nat): (r: State)
    requires s.currentWordIndex < |words|
    ensures r.currentWordIndex < |words|
    decreases k
  {
    if k == 0 then s else Run(words, Step(words, s), k - 1)
  }

  /** Any number of firings keeps the buffer a prefix of the current phrase. */
  lemma {:induction false} RunPreservesInv(words: seq<string>, s: State, k: nat)
    requires Inv(words, s)
    ensures Inv(words, Run(words, s, k))
    decreases k
  {
    if k > 0 {
      RunPreservesInv(words, Step(words, s), k - 1);
    }
  }

  /** A typing firing appends exactly the next character of the current phrase and
      changes nothing else. */
  lemma TypingAppendsNextChar(words: seq<string>, s: State)
    requires Inv(words, s)
    requires !s.isDeleting && s.displayText != words[s.currentWordIndex]
    ensures |s.displayText| < |words[s.currentWordIndex]|
    ensures Step(words, s) == s.(displayText := s.displayText + [words[s.currentWordIndex][|s.displayText|]])
  {
  }

  /** A deleting firing removes exactly the last character and changes nothing else. */
  lemma DeletingDropsLastChar(words: seq<string>, s: State)
    requires s.currentWordIndex < |words|
    requires s.isDeleting && s.displayText != ""
    ensures Step(words, s).displayText + [s.displayText[|s.displayText| - 1]] == s.displayText
    ensures Step(words, s).currentWordIndex == s.currentWordIndex && Step(words, s).isDeleting
  {
  }

  /** With the whole phrase typed and not deleting, the text stays as it is: the only
      change is the switch to deleting, after the 2000 ms pause. */
  lemma FullPhrasePauses(words: seq<string>, s: State)
    requires s.currentWordIndex < |words|
    requires s.displayText == words[s.currentWordIndex] && !s.isDeleting
    ensures Step(words, s) == s.(isDeleting := true)
    ensures Wait(words, s) == PauseDelay
  {
  }

  /** The phrase index moves only from an empty buffer while deleting; it then moves
      by exactly one, cyclically, and typing resumes. With two or more phrases this
      is also the only way the index changes. */
  lemma IndexAdvancesOnlyWhenEmptied(words: seq<string>, s: State)
    requires s.currentWordIndex < |words|
    ensures s.displayText == "" && s.isDeleting ==>
      Step(words, s) == State("", (s.currentWordIndex + 1) % |words|, false)
    ensures !(s.displayText == "" && s.isDeleting) ==>
      Step(words, s).currentWordIndex == s.currentWordIndex
    ensures |words| > 1 ==>
      (Step(words, s).currentWordIndex != s.currentWordIndex <==> s.displayText == "" && s.isDeleting)
  {
  }

  /** The character timer waits 50 ms while deleting and 100 ms while typing: its
      delay depends on the direction alone. */
  lemma EditWaitDependsOnDirection(words: seq<string>, s: State, t: State)
    requires s.currentWordIndex < |words| && t.currentWordIndex < |words|
    requires ActionOf(words, s) == Edit && ActionOf(words, t) == Edit
    ensures Wait(words, s) == (if s.isDeleting then DeleteDelay else TypeDelay)
    ensures s.isDeleting == t.isDeleting ==> Wait(words, s) == Wait(words, t)
  {
  }


  /** Typing from any prefix of the current phrase completes it, one firing per
      missing character; any further firings continue from the complete phrase. */
  lemma {:induction false} TypesRest(words: seq<string>, i: nat, j: nat, m: nat)
    requires i < |words| && j <= |words[i]|
    ensures Run(words, State(words[i][..j], i, false), |words[i]| - j + m)
         == Run(words, State(words[i], i, false), m)
    decreases |words[i]| - j
  {
    var w := words[i];
    if j == |w| {
      assert w[..j] == w;
    } else {
      var s := State(w[..j], i, false);
      assert |s.displayText| < |w|;
      assert s.displayText != w;
      assert Step(words, s) == State(w[..j + 1], i, false);
      TypesRest(words, i, j + 1, m);
    }
  }

  /** Deleting from any prefix of the current phrase empties the buffer, one firing
      per character; any further firings continue from the empty buffer. */
  lemma {:induction false} DeletesRest(words: seq<string>, i: nat, j: nat, m: nat)
    requires i < |words| && j <= |words[i]|
    ensures Run(words, State(words[i][..j], i, true), j + m) == Run(words, State("", i, true), m)
    decreases j
  {
    var w := words[i];
    if j == 0 {
      assert w[..j] == "";
    } else {
      var s := State(w[..j], i, true);
      assert |s.displayText| == j;
      assert Step(words, s) == State(w[..j - 1], i, true);
      DeletesRest(words, i, j - 1, m);
    }
  }

  /** One full cycle: from an empty buffer typing phrase i, |w| typing firings, the
      pause, |w| deleting firings and the advance leave an empty buffer typing phrase
      i + 1 (mod N). */
  lemma FullCycle(words: seq<string>, i: nat)
    requires i < |words|
    ensures Run(words, State("", i, false), |words[i]|) == State(words[i], i, false)
    ensures Run(words, State("", i, false), 2 * |words[i]| + 2) == State("", (i + 1) % |words|, false)
  {
    var w := words[i];
    var n := |w|;
    assert w[..0] == "" && w[..n] == w;
    TypesRest(words, i, 0, 0);
    TypesRest(words, i, 0, n + 2);
    assert Step(words, State(w, i, false)) == State(w, i, true);
    DeletesRest(words, i, n, 1);
  }

  /** From mount, the banner shows "Cybersecurity Engineer" after 22 typing firings. */
  lemma HeroFirstPhrase()
    ensures Run(HeroPhrases, Initial, 22) == State("Cybersecurity Engineer", 0, false)
  {
    FullCycle(HeroPhrases, 0);
  }

  /** With the single phrase "AB": two firings type it, the pause and two more delete
      it, and the advance returns to the mount state (the index wraps back to 0). */
  lemma SinglePhraseCycle()
    ensures Run(["AB"], Initial, 2) == State("AB", 0, false)
    ensures Run(["AB"], Initial, 6) == Initial
  {
    FullCycle(["AB"], 0);
  }

  /** The Hero component's state, updated in place by its effect. */
  class Sequencer {
    const words: seq<string>
    var displayText: string
    var currentWordIndex: nat
    var isDeleting: bool

    ghost predicate Valid()
      reads this
    {
      |words| > 0 && Inv(words, Current())
    }

    function Current(): State
      reads this
    {
      State(displayText, currentWordIndex, isDeleting)
    }

    constructor (phrases: seq<string>)
      requires |phrases| > 0
      ensures Valid() && words == phrases && Current() == Initial
    {
      words := phrases;
      displayText := "";
      currentWordIndex := 0;
      isDeleting := false;
    }

    /** One firing of the effect (lines 20-46) and of the timer it arms; returns how
        long that timer waited. */
    method Tick() returns (waited: nat)
      requires Valid()
      modifies this
      ensures Valid()
      ensures Current() == Step(words, old(Current()))
      ensures waited == Wait(words, old(Current()))
    {
      var currentWord := words[currentWordIndex];
      var shouldDelete := displayText == currentWord && !isDeleting;
      var shouldStartNext := displayText == "" && isDeleting;

      if shouldDelete {
        isDeleting := true;
        waited := PauseDelay;
        return;
      }

      if shouldStartNext {
        isDeleting := false;
        currentWordIndex := (currentWordIndex + 1) % |words|;
        waited := 0;
        return;
      }

      waited := TickDelay(isDeleting);
      displayText := NextText(displayText, currentWord, isDeleting);
    }
  }
}
