/**
 * The typing effect of the landing page: a timer step that types the current phrase one
 * character at a time, pauses on the full phrase, deletes it one character at a time and moves
 * on to the next phrase. The timer and the rendering are not modelled; one call of `Step` is
 * one timeout firing.
 */
module TypingAnimation {
  /** The four pieces of component state: phrase index, visible text, deleting and paused flags. */
  datatype Typing = Typing(phrase: nat, text: string, deleting: bool, paused: bool)

  /** The three delays, in milliseconds. */
  datatype Speeds = Speeds(typing: nat, deleting: nat, pause: nat)

  const DefaultSpeeds := Speeds(100, 50, 2000)

  const Initial := Typing(0, "", false, false)

  /** `s.substring(0, end)`: the end index is clamped into `[0, |s|]`. */
  function Substring(s: string, end: int): (r: string)
    ensures |r| == if end < 0 then 0 else if end > |s| then |s| else end
    ensures r == s[..|r|]
  {
    if end < 0 then "" else if end > |s| then s else s[..end]
  }

  /** One timeout firing. Only the deleting step that starts from the empty text moves to another phrase. */
  function Step(phrases: seq<string>, s: Typing): (t: Typing)
    requires s.phrase < |phrases|
    ensures t.phrase < |phrases|
    ensures t.phrase != s.phrase ==> s.deleting && !s.paused && s.text == "" && t.phrase == (s.phrase + 1) % |phrases|
  {
    var phrase := phrases[s.phrase];
    if s.paused then
      s.(paused := false, deleting := true)
    else if s.deleting then
      var text := Substring(phrase, |s.text| - 1);
      if s.text == "" then s.(text := text, deleting := false, phrase := (s.phrase + 1) % |phrases|)
      else s.(text := text)
    else
      var text := Substring(phrase, |s.text| + 1);
      if s.text == phrase then s.(text := text, paused := true)
      else s.(text := text)
  }

  /** The delay before the next firing, chosen from the state the timer was set in. */
  function Delay(speeds: Speeds, s: Typing): (d: nat)
    ensures d == speeds.pause || d == speeds.deleting || d == speeds.typing
  {
    if s.paused then speeds.pause else if s.deleting then speeds.deleting else speeds.typing
  }

  predicate IsPrefix(a: string, b: string) {
    |a| <= |b| && a == b[..|a|]
  }

  /**
   * What every reachable state satisfies: the index is in range, the text is a prefix of the
   * current phrase, the two flags are never both set, and a pause only happens on the full phrase.
   */
  predicate Inv(phrases: seq<string>, s: Typing) {
    && s.phrase < |phrases|
    && IsPrefix(s.text, phrases[s.phrase])
    && !(s.paused && s.deleting)
    && (s.paused ==> s.text == phrases[s.phrase])
  }

  lemma StepPreservesInv(phrases: seq<string>, s: Typing)
    requires Inv(phrases, s)
    ensures Inv(phrases, Step(phrases, s))
  {
  }

  /** The step rules, stated on the visible text: pause then delete, drop one character, add the next one. */
  lemma StepRules(phrases: seq<string>, s: Typing)
    requires Inv(phrases, s)
    ensures var t, p := Step(phrases, s), phrases[s.phrase];
      && (s.paused ==> t == Typing(s.phrase, s.text, true, false))
      && (s.deleting && s.text != "" ==> t == s.(text := s.text[..|s.text| - 1]))
      && (s.deleting && s.text == "" ==> t == Typing((s.phrase + 1) % |phrases|, "", false, false))
      && (!s.paused && !s.deleting && s.text != p ==> t == s.(text := p[..|s.text| + 1]))
      && (!s.paused && !s.deleting && s.text == p ==> t == s.(paused := true))
  {
    var p := phrases[s.phrase];
    if s.deleting && s.text != "" {
      assert p[..|s.text| - 1] == s.text[..|s.text| - 1];
    }
    if !s.paused && !s.deleting && s.text != p {
      assert |s.text| < |p|;
    }
  }

  /** `n` firings in a row. */
  function Run(phrases: seq<string>, s: Typing, n: nat): (t: Typing)
    requires s.phrase < |phrases|
    ensures t.phrase < |phrases|
    decreases n
  {
    if n == 0 then s else Run(phrases, Step(phrases, s), n - 1)
  }

  /** The time `n` firings take from state `s`. */
  function Elapsed(phrases: seq<string>, speeds: Speeds, s: Typing, n: nat): nat
    requires s.phrase < |phrases|
    decreases n
  {
    if n == 0 then 0 else Delay(speeds, s) + Elapsed(phrases, speeds, Step(phrases, s), n - 1)
  }

  lemma {:induction false} RunPreservesInv(phrases: seq<string>, s: Typing, n: nat)
    requires Inv(phrases, s)
    ensures Inv(phrases, Run(phrases, s, n))
    decreases n
  {
    if n > 0 {
      StepPreservesInv(phrases, s);
      RunPreservesInv(phrases, Step(phrases, s), n - 1);
    }
  }

  lemma {:induction false} RunAppend(phrases: seq<string>, speeds: Speeds, s: Typing, a: nat, b: nat)
    requires s.phrase < |phrases|
    ensures Run(phrases, s, a + b) == Run(phrases, Run(phrases, s, a), b)
    ensures Elapsed(phrases, speeds, s, a + b) == Elapsed(phrases, speeds, s, a) + Elapsed(phrases, speeds, Run(phrases, s, a), b)
    decreases a
  {
    if a > 0 {
      RunAppend(phrases, speeds, Step(phrases, s), a - 1, b);
    }
  }

  /** Typing from a prefix of length `k` reaches the full phrase in `|p| - k` firings. */
  lemma {:induction false} TypeRest(phrases: seq<string>, speeds: Speeds, i: nat, k: nat)
    requires i < |phrases| && k <= |phrases[i]|
    ensures Run(phrases, Typing(i, phrases[i][..k], false, false), |phrases[i]| - k) == Typing(i, phrases[i], false, false)
    ensures Elapsed(phrases, speeds, Typing(i, phrases[i][..k], false, false), |phrases[i]| - k) == (|phrases[i]| - k) * speeds.typing
    decreases |phrases[i]| - k
  {
    var p := phrases[i];
    if k == |p| {
      assert p[..k] == p;
    } else {
      var s := Typing(i, p[..k], false, false);
      assert s.text != p;
      assert Step(phrases, s) == Typing(i, p[..k + 1], false, false);
      TypeRest(phrases, speeds, i, k + 1);
    }
  }

  /** Deleting from a prefix of length `k` empties the text in `k` firings. */
  lemma {:induction false} DeleteRest(phrases: seq<string>, speeds: Speeds, i: nat, k: nat)
    requires i < |phrases| && k <= |phrases[i]|
    ensures Run(phrases, Typing(i, phrases[i][..k], true, false), k) == Typing(i, "", true, false)
    ensures Elapsed(phrases, speeds, Typing(i, phrases[i][..k], true, false), k) == k * speeds.deleting
    decreases k
  {
    var p := phrases[i];
    if k > 0 {
      var s := Typing(i, p[..k], true, false);
      assert Step(phrases, s) == Typing(i, p[..k - 1], true, false);
      DeleteRest(phrases, speeds, i, k - 1);
    }
  }

  /** On the full phrase: one typing firing sets the pause, the next starts deleting. */
  lemma TurnAround(phrases: seq<string>, speeds: Speeds, i: nat)
    requires i < |phrases|
    ensures Run(phrases, Typing(i, phrases[i], false, false), 2) == Typing(i, phrases[i], true, false)
    ensures Elapsed(phrases, speeds, Typing(i, phrases[i], false, false), 2) == speeds.typing + speeds.pause
  {
    var p := phrases[i];
    assert Step(phrases, Typing(i, p, false, false)) == Typing(i, p, false, true);
    assert Step(phrases, Typing(i, p, false, true)) == Typing(i, p, true, false);
  }

  /** Deleting from the empty text moves to the next phrase. */
  lemma NextPhrase(phrases: seq<string>, speeds: Speeds, i: nat)
    requires i < |phrases|
    ensures Run(phrases, Typing(i, "", true, false), 1) == Typing((i + 1) % |phrases|, "", false, false)
    ensures Elapsed(phrases, speeds, Typing(i, "", true, false), 1) == speeds.deleting
  {
    assert Step(phrases, Typing(i, "", true, false)) == Typing((i + 1) % |phrases|, "", false, false);
  }

  /** Two runs back to back, with what is known of each. */
  lemma Sequence(phrases: seq<string>, speeds: Speeds, s: Typing, a: nat, mid: Typing, b: nat, end: Typing, ea: nat, eb: nat)
    requires s.phrase < |phrases|
    requires Run(phrases, s, a) == mid && Elapsed(phrases, speeds, s, a) == ea
    requires Run(phrases, mid, b) == end && Elapsed(phrases, speeds, mid, b) == eb
    ensures Run(phrases, s, a + b) == end && Elapsed(phrases, speeds, s, a + b) == ea + eb
  {
    RunAppend(phrases, speeds, s, a, b);
  }

  /** From the empty text, `|p| + 2` firings type the phrase, pause and turn to deleting. */
  lemma TypeAndTurn(phrases: seq<string>, speeds: Speeds, i: nat)
    requires i < |phrases|
    ensures Run(phrases, Typing(i, "", false, false), |phrases[i]| + 2) == Typing(i, phrases[i], true, false)
    ensures Elapsed(phrases, speeds, Typing(i, "", false, false), |phrases[i]| + 2) == |phrases[i]| * speeds.typing + (speeds.typing + speeds.pause)
  {
    var p := phrases[i];
    assert p[..0] == "" && p[..|p|] == p;
    TypeRest(phrases, speeds, i, 0);
    TurnAround(phrases, speeds, i);
    Sequence(phrases, speeds, Typing(i, "", false, false), |p|, Typing(i, p, false, false), 2, Typing(i, p, true, false),
             |p| * speeds.typing, speeds.typing + speeds.pause);
  }

  /** From deleting the full phrase, `|p| + 1` firings empty the text and move to the next phrase. */
  lemma DeleteAndMove(phrases: seq<string>, speeds: Speeds, i: nat)
    requires i < |phrases|
    ensures Run(phrases, Typing(i, phrases[i], true, false), |phrases[i]| + 1) == Typing((i + 1) % |phrases|, "", false, false)
    ensures Elapsed(phrases, speeds, Typing(i, phrases[i], true, false), |phrases[i]| + 1) == |phrases[i]| * speeds.deleting + speeds.deleting
  {
    var p := phrases[i];
    assert p[..|p|] == p;
    DeleteRest(phrases, speeds, i, |p|);
    NextPhrase(phrases, speeds, i);
    Sequence(phrases, speeds, Typing(i, p, true, false), |p|, Typing(i, "", true, false), 1, Typing((i + 1) % |phrases|, "", false, false),
             |p| * speeds.deleting, speeds.deleting);
  }

  /**
   * A whole cycle: from the empty text of phrase `i`, `2|p| + 3` firings type the phrase, pause,
   * delete it and land on the empty text of the next phrase, taking
   * `(|p| + 1) * (typing + deleting) + pause` milliseconds.
   */
  lemma FullCycle(phrases: seq<string>, speeds: Speeds, i: nat)
    requires i < |phrases|
    ensures Run(phrases, Typing(i, "", false, false), 2 * |phrases[i]| + 3) == Typing((i + 1) % |phrases|, "", false, false)
    ensures Elapsed(phrases, speeds, Typing(i, "", false, false), 2 * |phrases[i]| + 3)
      == (|phrases[i]| + 1) * (speeds.typing + speeds.deleting) + speeds.pause
  {
    var len := |phrases[i]|;
    TypeAndTurn(phrases, speeds, i);
    DeleteAndMove(phrases, speeds, i);
    Sequence(phrases, speeds, Typing(i, "", false, false), len + 2, Typing(i, phrases[i], true, false), len + 1,
             Typing((i + 1) % |phrases|, "", false, false),
             len * speeds.typing + (speeds.typing + speeds.pause), len * speeds.deleting + speeds.deleting);
    Distribute(len, speeds.typing, speeds.deleting, speeds.pause);
  }

  lemma Distribute(len: nat, a: nat, b: nat, c: nat)
    ensures len * a + (a + c) + len * b + b == (len + 1) * (a + b) + c
  {
  }

  /** The component, its props fixed and its four state variables updated by each firing. */
  class TypingEffect {
    const phrases: seq<string>
    const speeds: Speeds
    var currentPhrase: nat
    var currentText: string
    var isDeleting: bool
    var isPaused: bool

    function State(): Typing
      reads this
    {
      Typing(currentPhrase, currentText, isDeleting, isPaused)
    }

    ghost predicate Valid()
      reads this
    {
      Inv(phrases, State())
    }

    constructor (phrases: seq<string>, speeds: Speeds)
      requires |phrases| > 0
      ensures this.phrases == phrases && this.speeds == speeds
      ensures State() == Initial && Valid()
    {
      this.phrases := phrases;
      this.speeds := speeds;
      currentPhrase := 0;
      currentText := "";
      isDeleting := false;
      isPaused := false;
    }

    /** The delay the next timeout is set with. */
    function NextDelay(): (d: nat)
      reads this
      ensures isPaused ==> d == speeds.pause
      ensures !isPaused && isDeleting ==> d == speeds.deleting
      ensures !isPaused && !isDeleting ==> d == speeds.typing
    {
      Delay(speeds, State())
    }

    /** One timeout firing; the tests read the state the timer was set in, as the closure does. */
    method Tick()
      requires Valid()
      modifies this
      ensures State() == Step(phrases, old(State()))
      ensures Valid()
    {
      StepPreservesInv(phrases, State());
      var phrase := phrases[currentPhrase];
      if isPaused {
        isPaused := false;
        isDeleting := true;
        return;
      }

      if isDeleting {
        var wasEmpty := currentText == "";
        currentText := Substring(phrase, |currentText| - 1);
        if wasEmpty {
          isDeleting := false;
          currentPhrase := (currentPhrase + 1) % |phrases|;
        }
      } else {
        var wasFull := currentText == phrase;
        currentText := Substring(phrase, |currentText| + 1);
        if wasFull {
          isPaused := true;
        }
      }
    }
  }
}
