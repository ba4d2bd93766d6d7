/**
 * The hero typing effect: one phrase at a time is typed out character by
 * character, held, deleted character by character, and the next phrase
 * (cyclically) follows. Each tick returns the delay until the next tick.
 */
module TypeWriterEffect {

  /** The phrases the site cycles through. */
  const SiteWords: seq<string> := ["Game Developer", "Unity Expert", "Web Creator", "App Builder"]

  /** Delays, in milliseconds, chosen by a tick. */
  const TypeSpeed: nat := 100
  const DeleteSpeed: nat := 50
  const HoldFullWord: nat := 2000
  const NextWordPause: nat := 500

  /** A usable phrase list: at least one phrase, and no phrase is empty. */
  predicate ValidWords(words: seq<string>)
  {
    |words| > 0 && forall i :: 0 <= i < |words| ==> |words[i]| > 0
  }

  lemma SiteWordsValid()
    ensures ValidWords(SiteWords)
  {
  }

  /** The three fields the effect keeps between ticks. */
  datatype Cursor = Cursor(wordIndex: nat, charIndex: nat, isDeleting: bool)

  /**
   * What holds between any two ticks: the phrase index is in range, the
   * character index lies within the phrase, a deleting cursor still has a
   * character to delete and a typing cursor still has one to type.
   */
  predicate Inv(words: seq<string>, c: Cursor)
  {
    && ValidWords(words)
    && c.wordIndex < |words|
    && c.charIndex <= |words[c.wordIndex]|
    && (c.isDeleting ==> c.charIndex > 0)
    && (!c.isDeleting ==> c.charIndex < |words[c.wordIndex]|)
  }

  /** The text the element shows for a cursor: the first `charIndex` characters of its phrase. */
  function Shown(words: seq<string>, c: Cursor): (r: string)
    requires Inv(words, c)
    ensures |r| == c.charIndex && r <= words[c.wordIndex]
  {
    words[c.wordIndex][..c.charIndex]
  }

  /** `s.substring(0, n)`: the end index is clamped to `[0, |s|]`. */
  function Substring(s: string, n: int): (r: string)
    ensures r <= s
    ensures |r| == if n < 0 then 0 else if n > |s| then |s| else n
  {
    if n <= 0 then [] else if n >= |s| then s else s[..n]
  }

  /** The outcome of one tick: the new cursor, the new text and the delay to the next tick. */
  datatype Tick = Tick(next: Cursor, text: string, delay: nat)

  /** One call of `type()`. */
  function Step(words: seq<string>, c: Cursor): (r: Tick)
    requires Inv(words, c)
    ensures Inv(words, r.next)
    ensures r.text == Shown(words, r.next)
  {
    var w := words[c.wordIndex];
    var text := if c.isDeleting then Substring(w, c.charIndex - 1) else Substring(w, c.charIndex + 1);
    var k: nat := if c.isDeleting then c.charIndex - 1 else c.charIndex + 1;
    var speed := if c.isDeleting then DeleteSpeed else TypeSpeed;
    if !c.isDeleting && k == |w| then
      Tick(Cursor(c.wordIndex, k, true), text, HoldFullWord)
    else if c.isDeleting && k == 0 then
      Tick(Cursor((c.wordIndex + 1) % |words|, k, false), text, NextWordPause)
    else
      Tick(Cursor(c.wordIndex, k, c.isDeleting), text, speed)
  }

  /** A typing tick after which the phrase is complete. */
  predicate CompletesWord(words: seq<string>, c: Cursor)
    requires Inv(words, c)
  {
    !c.isDeleting && c.charIndex + 1 == |words[c.wordIndex]|
  }

  /** A deleting tick after which the phrase is empty. */
  predicate EmptiesWord(c: Cursor)
  {
    c.isDeleting && c.charIndex == 1
  }

  /**
   * How one tick moves the cursor and which delay it returns: the character
   * index moves by one in the current direction; the direction flips exactly
   * at the two ends; the phrase advances by one, cyclically, exactly when a
   * deletion empties it; and the delay is 2000 for the completing tick, 500
   * for the emptying tick, otherwise 100 while typing and 50 while deleting.
   */
  lemma StepOutcome(words: seq<string>, c: Cursor)
    requires Inv(words, c)
    ensures var r := Step(words, c);
      && r.next.charIndex == (if c.isDeleting then c.charIndex - 1 else c.charIndex + 1)
      && r.next.wordIndex == (if EmptiesWord(c) then (c.wordIndex + 1) % |words| else c.wordIndex)
      && r.next.isDeleting == (if c.isDeleting then !EmptiesWord(c) else CompletesWord(words, c))
      && (r.delay == HoldFullWord <==> CompletesWord(words, c))
      && (r.delay == NextWordPause <==> EmptiesWord(c))
      && (r.delay == TypeSpeed <==> !c.isDeleting && !CompletesWord(words, c))
      && (r.delay == DeleteSpeed <==> c.isDeleting && !EmptiesWord(c))
  {
  }

  /** The cursor after `k` ticks. */
  function Run(words: seq<string>, c: Cursor, k: nat): (r: Cursor)
    requires Inv(words, c)
    ensures Inv(words, r)
    decreases k
  {
    if k == 0 then c else Run(words, Step(words, c).next, k - 1)
  }

  /** Running `a` ticks and then `b` ticks is running `a + b` ticks. */
  lemma {:induction false} RunAdd(words: seq<string>, c: Cursor, a: nat, b: nat)
    requires Inv(words, c)
    ensures Run(words, c, a + b) == Run(words, Run(words, c, a), b)
    decreases a
  {
    if a > 0 {
      RunAdd(words, Step(words, c).next, a - 1, b);
    }
  }

  /** Typing from character `j` reaches the full phrase, now deleting, after `|phrase| - j` ticks. */
  lemma {:induction false} TypingPhase(words: seq<string>, i: nat, j: nat)
    requires Inv(words, Cursor(i, j, false))
    ensures Run(words, Cursor(i, j, false), |words[i]| - j) == Cursor(i, |words[i]|, true)
    decreases |words[i]| - j
  {
    var c := Cursor(i, j, false);
    if j + 1 < |words[i]| {
      assert Step(words, c).next == Cursor(i, j + 1, false);
      TypingPhase(words, i, j + 1);
    } else {
      assert Step(words, c).next == Cursor(i, |words[i]|, true);
    }
  }

  /** Deleting from character `j` reaches the next phrase, empty and typing, after `j` ticks. */
  lemma {:induction false} DeletingPhase(words: seq<string>, i: nat, j: nat)
    requires Inv(words, Cursor(i, j, true))
    ensures Run(words, Cursor(i, j, true), j) == Cursor((i + 1) % |words|, 0, false)
    decreases j
  {
    var c := Cursor(i, j, true);
    if j > 1 {
      assert Step(words, c).next == Cursor(i, j - 1, true);
      DeletingPhase(words, i, j - 1);
    } else {
      assert Step(words, c).next == Cursor((i + 1) % |words|, 0, false);
    }
  }

  /**
   * Full cycle: from the start of phrase `i`, exactly `2 * |words[i]|` ticks
   * reach the start of the next phrase (cyclically), with the text empty.
   */
  lemma FullCycle(words: seq<string>, i: nat)
    requires ValidWords(words) && i < |words|
    ensures var end := Run(words, Cursor(i, 0, false), 2 * |words[i]|);
      end == Cursor((i + 1) % |words|, 0, false) && Shown(words, end) == ""
  {
    var n := |words[i]|;
    RunAdd(words, Cursor(i, 0, false), n, n);
    TypingPhase(words, i, 0);
    DeletingPhase(words, i, n);
  }

  /** Ticks needed to type and delete the first `k` phrases. */
  function CycleTicks(words: seq<string>, k: nat): (r: nat)
    requires k <= |words|
  {
    if k == 0 then 0 else CycleTicks(words, k - 1) + 2 * |words[k - 1]|
  }

  /** An index below the modulus is its own remainder (kept apart so that `Rotation` stays cheap). */
  lemma SmallMod(a: nat, n: nat)
    requires a < n
    ensures a % n == a
  {
  }

  /** One more phrase typed and deleted: from the start of phrase `k - 1` to the start of phrase `k`. */
  lemma NextPhrase(words: seq<string>, k: nat)
    requires ValidWords(words) && 0 < k <= |words|
    requires Run(words, Cursor(0, 0, false), CycleTicks(words, k - 1)) == Cursor(k - 1, 0, false)
    ensures Run(words, Cursor(0, 0, false), CycleTicks(words, k)) == Cursor(k % |words|, 0, false)
  {
    RunAdd(words, Cursor(0, 0, false), CycleTicks(words, k - 1), 2 * |words[k - 1]|);
    FullCycle(words, k - 1);
  }

  /**
   * From the initial cursor, after the phrases `0 .. k-1` have each been typed
   * and deleted, the effect stands at the start of phrase `k` — and at the
   * start of phrase 0 again once every phrase has had its turn.
   */
  lemma {:induction false} Rotation(words: seq<string>, k: nat)
    requires ValidWords(words) && k <= |words|
    ensures Run(words, Cursor(0, 0, false), CycleTicks(words, k)) == Cursor(k % |words|, 0, false)
  {
    if k > 0 {
      Rotation(words, k - 1);
      SmallMod(k - 1, |words|);
      NextPhrase(words, k);
    }
  }

  /** The whole rotation through every phrase returns the effect to its initial cursor. */
  lemma Period(words: seq<string>)
    requires ValidWords(words)
    ensures Run(words, Cursor(0, 0, false), CycleTicks(words, |words|)) == Cursor(0, 0, false)
  {
    Rotation(words, |words|);
  }

  /** On the site's own phrases, "Game Developer" takes 28 ticks and hands over to "Unity Expert". */
  lemma SiteFirstPhrase()
    ensures ValidWords(SiteWords) && |SiteWords[0]| == 14
    ensures Run(SiteWords, Cursor(0, 0, false), 2 * |SiteWords[0]|) == Cursor(1, 0, false)
  {
    FullCycle(SiteWords, 0);
  }

  /** The typing-effect component: its cursor fields and the element's text. */
  class TypeWriter {
    const words: seq<string>
    var wordIndex: nat
    var charIndex: nat
    var isDeleting: bool
    /** The `textContent` of the typewriter element. */
    var text: string

    ghost predicate Valid()
      reads this
    {
      Inv(words, Cursor(wordIndex, charIndex, isDeleting))
    }

    function State(): Cursor
      reads this
    {
      Cursor(wordIndex, charIndex, isDeleting)
    }

    /** The component as initialised; `markup` is whatever the element held beforehand. */
    constructor (words: seq<string>, markup: string)
      requires ValidWords(words)
      ensures Valid() && this.words == words
      ensures State() == Cursor(0, 0, false) && text == markup
    {
      this.words := words;
      wordIndex, charIndex, isDeleting := 0, 0, false;
      text := markup;
    }

    /** `type()`: one tick; the returned delay replaces the `setTimeout` reschedule. */
    method Type() returns (speed: nat)
      requires Valid()
      modifies this
      ensures Valid()
      ensures var t := Step(words, old(State()));
        State() == t.next && text == t.text && speed == t.delay
      ensures text == Shown(words, State())
    {
      var currentWord := words[wordIndex];
      if isDeleting {
        text := Substring(currentWord, charIndex - 1);
        charIndex := charIndex - 1;
      } else {
        text := Substring(currentWord, charIndex + 1);
        charIndex := charIndex + 1;
      }
      speed := if isDeleting then DeleteSpeed else TypeSpeed;
      if !isDeleting && charIndex == |currentWord| {
        speed := HoldFullWord;
        isDeleting := true;
      } else if isDeleting && charIndex == 0 {
        isDeleting := false;
        wordIndex := (wordIndex + 1) % |words|;
        speed := NextWordPause;
      }
    }
  }
}
