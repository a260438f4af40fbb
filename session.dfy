/** The study session: the mode, the position in the card list, whether the
    current card shows its answer (the `flipped` class of the card element),
    the set of learned positions and the confidence counters, with the
    handlers that move between them. Each handler is specified by a pure
    transition on `State`; the class applies it to its fields. */
module Session {
  import opened Wrappers
  import opened Shuffle
  import opened CardStore
  import Grading

  datatype Mode = Sequential | Random | Quiz

  datatype Confidence = Easy | Good | Hard | Again

  /** `cardStats`: one counter per confidence. */
  datatype Stats = Stats(easy: nat, good: nat, hard: nat, again: nat)

  const NoStats := Stats(0, 0, 0, 0)

  function Count(s: Stats, c: Confidence): nat {
    match c
    case Easy => s.easy
    case Good => s.good
    case Hard => s.hard
    case Again => s.again
  }

  /** `cardStats[confidence]++`. */
  function Bump(s: Stats, c: Confidence): (r: Stats)
    ensures Count(r, c) == Count(s, c) + 1
    ensures forall d :: d != c ==> Count(r, d) == Count(s, d)
  {
    match c
    case Easy => s.(easy := s.easy + 1)
    case Good => s.(good := s.good + 1)
    case Hard => s.(hard := s.hard + 1)
    case Again => s.(again := s.again + 1)
  }

  /** `currentMode` (`None` for `null`), `currentIndex`, the flipped flag,
      `learnedCards` and `cardStats`. */
  datatype State = State(mode: Option<Mode>, index: nat, flipped: bool, learned: set<nat>, stats: Stats)

  /** The page as it loads. */
  const Initial := State(None, 0, false, {}, NoStats)

  /** The state effect of `updateCard()` over `n` cards: past the last card
      it shows the completion screen and returns early, leaving the flag as
      it was; otherwise it turns the card back to its question. */
  function Shown(st: State, n: nat): State {
    if st.index >= n then st else st.(flipped := false)
  }

  /** `startMode(mode)`; a random mode also reorders the cards. */
  function StartSpec(st: State, m: Mode, n: nat): State {
    Shown(State(Some(m), 0, st.flipped, {}, NoStats), n)
  }

  /** `flipCard()`: in quiz mode an unflipped card can only be turned by
      checking an answer. */
  function FlipSpec(st: State): State {
    if st.mode == Some(Quiz) && !st.flipped then st else st.(flipped := !st.flipped)
  }

  /** `prevCard()`. */
  function PrevSpec(st: State, n: nat): State {
    if st.index > 0 then Shown(st.(index := st.index - 1), n) else st
  }

  /** `nextCard()`: moves only while a later card exists. */
  function NextSpec(st: State, n: nat): State {
    if st.index < n - 1 then Shown(st.(index := st.index + 1), n) else st
  }

  /** `shuffleCards()`: back to the first card; ratings are kept. */
  function ShuffleSpec(st: State, n: nat): State {
    Shown(st.(index := 0), n)
  }

  /** `rateCard(confidence)`: no bounds check on the position. */
  function RateSpec(st: State, c: Confidence, n: nat): State {
    Shown(st.(stats := Bump(st.stats, c),
              learned := if c != Again then st.learned + {st.index} else st.learned,
              index := st.index + 1), n)
  }

  /** The state effect of `checkQuizAnswer()`: it turns the card over. With
      no card at the position, reading its answer throws before anything
      changes. */
  function CheckSpec(st: State, n: nat): State {
    if st.index < n then st.(flipped := true) else st
  }

  /** `goBack()` and `restart()`: the flag is left as it was. */
  function ResetSpec(st: State): State {
    st.(mode := None, index := 0, learned := {}, stats := NoStats)
  }

  /** Keys `handleKeyboard` looks at (`e.key`). */
  datatype Key = Space | Enter | ArrowLeft | ArrowRight | Digit1 | Digit2 | Digit3 | Digit4 | Escape | OtherKey

  /** The handler a key press runs. */
  datatype Action = NoAction | Flip | Prev | Next | Rate(confidence: Confidence) | Check | Back

  /** `handleKeyboard(e)`: nothing without a mode; inside the answer box
      only Ctrl+Enter (checking the answer); otherwise the key table, where
      digits rate only a flipped card and the right arrow rates a flipped
      card "good" and moves on from an unflipped one. */
  function Dispatch(key: Key, active: bool, inTextarea: bool, ctrl: bool, flipped: bool): (a: Action)
    ensures !active ==> a == NoAction
    ensures a == Check <==> active && inTextarea && key == Enter && ctrl
    ensures a.Rate? ==> active && !inTextarea && flipped
  {
    if !active then NoAction
    else if inTextarea then (if key == Enter && ctrl then Check else NoAction)
    else match key
      case Space => Flip
      case Enter => Flip
      case ArrowLeft => Prev
      case ArrowRight => if flipped then Rate(Good) else Next
      case Digit1 => if flipped then Rate(Again) else NoAction
      case Digit2 => if flipped then Rate(Hard) else NoAction
      case Digit3 => if flipped then Rate(Good) else NoAction
      case Digit4 => if flipped then Rate(Easy) else NoAction
      case Escape => Back
      case OtherKey => NoAction
  }

  /** The state effect of a dispatched handler over `n` cards. */
  function Step(st: State, a: Action, n: nat): State {
    match a
    case NoAction => st
    case Flip => FlipSpec(st)
    case Prev => PrevSpec(st, n)
    case Next => NextSpec(st, n)
    case Rate(c) => RateSpec(st, c, n)
    case Check => CheckSpec(st, n)
    case Back => ResetSpec(st)
  }

  /** Learned positions never outnumber the ratings other than "again". */
  predicate Consistent(st: State) {
    |st.learned| <= st.stats.easy + st.stats.good + st.stats.hard
  }

  /** The number of ratings of any confidence. */
  function Rated(s: Stats): nat {
    s.easy + s.good + s.hard + s.again
  }

  // ---------------------------------------------------------------- rating

  /** A rating bumps its own counter by one and no other, marks the card
      learned exactly when it is not "again", moves one position on and
      keeps the mode. */
  lemma RateEffects(st: State, c: Confidence, n: nat)
    ensures var r := RateSpec(st, c, n);
            && Count(r.stats, c) == Count(st.stats, c) + 1
            && (forall d :: d != c ==> Count(r.stats, d) == Count(st.stats, d))
            && Rated(r.stats) == Rated(st.stats) + 1
            && (st.index in r.learned <==> c != Again || st.index in st.learned)
            && r.learned - {st.index} == st.learned - {st.index}
            && r.index == st.index + 1 && r.mode == st.mode
  {
    var r := RateSpec(st, c, n);
    assert forall d :: Count(r.stats, d) == Count(Bump(st.stats, c), d);
  }

  lemma {:induction false} InsertSize(s: set<nat>, x: nat)
    ensures |s + {x}| <= |s| + 1
  {
    if x in s { assert s + {x} == s; } else { assert |s + {x}| == |s| + 1; }
  }

  /** Every transition keeps `Consistent`. */
  lemma StepConsistent(st: State, a: Action, n: nat)
    requires Consistent(st)
    ensures Consistent(Step(st, a, n))
  {
    if a.Rate? && a.confidence != Again {
      InsertSize(st.learned, st.index);
    }
  }

  lemma StartConsistent(st: State, m: Mode, n: nat)
    ensures Consistent(StartSpec(st, m, n))
  {
  }

  /** The positions below `k`. */
  function Below(k: nat): (r: set<nat>)
    ensures forall i :: i in r ==> i < k
  {
    if k == 0 then {} else Below(k - 1) + {k - 1}
  }

  lemma {:induction false} BelowSize(k: nat)
    ensures |Below(k)| == k
  {
    if k > 0 {
      var b := Below(k - 1);
      BelowSize(k - 1);
      assert k - 1 !in b;
      assert |b + {k - 1}| == |b| + 1;
    }
  }

  /** `k` ratings of confidence `c` in a row. */
  function RateTimes(st: State, c: Confidence, k: nat, n: nat): State
    decreases k
  {
    if k == 0 then st else RateTimes(RateSpec(st, c, n), c, k - 1, n)
  }

  /** From a position whose predecessors are all learned, `k` "good"
      ratings move `k` positions on, count `k` more "good" and mark those
      positions learned. */
  lemma {:induction false} GoodRun(st: State, k: nat, n: nat)
    requires st.learned == Below(st.index)
    ensures var r := RateTimes(st, Good, k, n);
            && r.index == st.index + k
            && r.stats == st.stats.(good := st.stats.good + k)
            && r.learned == Below(st.index + k)
            && r.mode == st.mode
    decreases k
  {
    if k > 0 {
      var st' := RateSpec(st, Good, n);
      assert st'.learned == Below(st.index + 1);
      GoodRun(st', k - 1, n);
    }
  }

  /** After `startMode` on `n` cards, `n` "good" ratings reach the end: the
      position is `n`, `n` cards are rated good and learned, no other
      counter moved. */
  lemma GoodRunCompletes(st: State, m: Mode, n: nat)
    ensures var r := RateTimes(StartSpec(st, m, n), Good, n, n);
            && r.index == n
            && r.stats == Stats(0, n, 0, 0)
            && r.learned == Below(n) && |r.learned| == n
            && r.mode == Some(m)
  {
    var s0 := StartSpec(st, m, n);
    assert s0.learned == Below(0);
    GoodRun(s0, n, n);
    BelowSize(n);
  }

  /** Reaching the end through a rating leaves a flipped card flipped, so
      the digit keys and the right arrow go on rating: position `n` is
      marked learned although there is no card there, and the position
      passes `n`. */
  lemma RatingPastTheEnd(st: State, n: nat)
    requires st.mode.Some? && st.flipped && st.index == n - 1 && n > 0
    ensures var done := RateSpec(st, Good, n);
            && done.index == n && done.flipped
            && Dispatch(Digit3, true, false, false, done.flipped) == Rate(Good)
            && var over := RateSpec(done, Good, n);
               over.index == n + 1 && n in over.learned && over.flipped
  {
  }

  // ------------------------------------------------------------ navigation

  /** `prevCard` does nothing on the first card. */
  lemma PrevAtStart(st: State, n: nat)
    requires st.index == 0
    ensures PrevSpec(st, n) == st
  {
  }

  /** `nextCard` stops at the last card: from any card it never reaches
      the completion position, and on the last card it does nothing. */
  lemma NextStaysInRange(st: State, n: nat)
    requires st.index < n
    ensures NextSpec(st, n).index < n
    ensures st.index == n - 1 ==> NextSpec(st, n) == st
  {
  }

  /** Going forward and then back returns to the same card, showing its
      question; ratings and mode are untouched. */
  lemma NextThenPrev(st: State, n: nat)
    requires st.index < n - 1
    ensures PrevSpec(NextSpec(st, n), n) == st.(flipped := false)
  {
  }

  /** `shuffleCards` restarts at the first card but keeps what was rated. */
  lemma ShuffleKeepsRatings(st: State, n: nat)
    ensures var r := ShuffleSpec(st, n);
            r.index == 0 && r.stats == st.stats && r.learned == st.learned && r.mode == st.mode
  {
  }

  // ------------------------------------------------------------- flipping

  /** Outside quiz mode, flipping twice changes nothing. */
  lemma FlipTwice(st: State)
    requires st.mode != Some(Quiz)
    ensures FlipSpec(FlipSpec(st)) == st
  {
  }

  /** In quiz mode the answer shows only after a check: flipping never
      turns an unflipped card over, while a check on a card does. */
  lemma QuizNeedsCheck(st: State, n: nat)
    requires st.mode == Some(Quiz) && !st.flipped
    ensures !FlipSpec(st).flipped
    ensures st.index < n ==> CheckSpec(st, n).flipped
  {
  }

  /** Checking an answer touches neither the position nor the ratings. */
  lemma CheckKeepsProgress(st: State, n: nat)
    ensures var r := CheckSpec(st, n);
            r.index == st.index && r.stats == st.stats && r.learned == st.learned && r.mode == st.mode
  {
  }

  // ------------------------------------------------------------- resetting

  /** `goBack` clears the session whatever it was, and doing it twice is
      doing it once. */
  lemma ResetClears(st: State)
    ensures var r := ResetSpec(st);
            && r.mode == None && r.index == 0 && r.learned == {} && r.stats == NoStats
            && r.flipped == st.flipped
            && ResetSpec(r) == r
  {
  }

  // -------------------------------------------------------------- keyboard

  /** Inside the answer box only Ctrl+Enter acts, and it checks the answer. */
  lemma TextareaOnlyChecks(key: Key, ctrl: bool, flipped: bool)
    ensures var a := Dispatch(key, true, true, ctrl, flipped);
            (a == Check <==> key == Enter && ctrl) && (a == NoAction <==> !(key == Enter && ctrl))
  {
  }

  /** The digit for each confidence. */
  function DigitFor(c: Confidence): Key {
    match c
    case Again => Digit1
    case Hard => Digit2
    case Good => Digit3
    case Easy => Digit4
  }

  /** Keys 1 to 4 rate a flipped card again, hard, good and easy, and on an
      unflipped card they do nothing. */
  lemma DigitsRate(c: Confidence, ctrl: bool)
    ensures Dispatch(DigitFor(c), true, false, ctrl, true) == Rate(c)
    ensures Dispatch(DigitFor(c), true, false, ctrl, false) == NoAction
  {
  }

  /** The session, over the store's card list. */
  class StudySession {
    const store: Store
    var mode: Option<Mode>
    var index: nat
    var flipped: bool
    var learned: set<nat>
    var stats: Stats

    ghost function Current(): State
      reads this
    {
      State(mode, index, flipped, learned, stats)
    }

    ghost predicate Valid()
      reads this, store
    {
      store.Valid() && Consistent(Current())
    }

    constructor (s: Store)
      requires s.Valid()
      ensures Valid() && store == s && Current() == Initial
    {
      store := s;
      mode, index, flipped, learned, stats := None, 0, false, {}, NoStats;
    }

    /** Applies `updateCard()`'s effect on the flag. */
    method UpdateCard()
      requires Valid()
      modifies this
      ensures Valid()
      ensures Current() == Shown(old(Current()), |store.flashcards|)
    {
      if index < |store.flashcards| {
        flipped := false;
      }
    }

    method StartMode(m: Mode, js: seq<nat>)
      requires Valid()
      requires m == Random ==> Choices(js, |store.flashcards|)
      modifies this, store
      ensures Valid()
      ensures Current() == StartSpec(old(Current()), m, |store.flashcards|)
      ensures store.flashcards == if m == Random then Shuffled(old(store.flashcards), js) else old(store.flashcards)
      ensures store.files == old(store.files) && store.nextId == old(store.nextId)
    {
      mode, index, learned, stats := Some(m), 0, {}, NoStats;
      if m == Random {
        store.ShuffleCards(js);
      }
      UpdateCard();
    }

    method FlipCard()
      requires Valid()
      modifies this
      ensures Valid() && Current() == FlipSpec(old(Current()))
    {
      if mode == Some(Quiz) && !flipped {
        return;
      }
      flipped := !flipped;
    }

    method PrevCard()
      requires Valid()
      modifies this
      ensures Valid() && Current() == PrevSpec(old(Current()), |store.flashcards|)
    {
      if index > 0 {
        index := index - 1;
        UpdateCard();
      }
    }

    method NextCard()
      requires Valid()
      modifies this
      ensures Valid() && Current() == NextSpec(old(Current()), |store.flashcards|)
    {
      if index < |store.flashcards| - 1 {
        index := index + 1;
        UpdateCard();
      }
    }

    method ShuffleCards(js: seq<nat>)
      requires Valid() && Choices(js, |store.flashcards|)
      modifies this, store
      ensures Valid() && Current() == ShuffleSpec(old(Current()), |store.flashcards|)
      ensures store.flashcards == Shuffled(old(store.flashcards), js)
      ensures store.files == old(store.files) && store.nextId == old(store.nextId)
    {
      store.ShuffleCards(js);
      index := 0;
      UpdateCard();
    }

    method RateCard(c: Confidence)
      requires Valid()
      modifies this
      ensures Valid() && Current() == RateSpec(old(Current()), c, |store.flashcards|)
    {
      StepConsistent(Current(), Rate(c), |store.flashcards|);
      stats := Bump(stats, c);
      if c != Again {
        learned := learned + {index};
      }
      index := index + 1;
      UpdateCard();
    }

    /** `checkQuizAnswer()` with the typed `input`: the grade that colours
        the answer, or `None` when there is no card to check against. */
    method CheckQuizAnswer(input: string) returns (grade: Option<Grading.Tier>)
      requires Valid()
      modifies this
      ensures Valid() && Current() == CheckSpec(old(Current()), |store.flashcards|)
      ensures grade == if index < |store.flashcards|
                       then Some(Grading.Grade(input, store.flashcards[index].answer))
                       else None
    {
      if index >= |store.flashcards| {
        return None;
      }
      grade := Some(Grading.Grade(input, store.flashcards[index].answer));
      flipped := true;
    }

    method GoBack()
      requires Valid()
      modifies this
      ensures Valid() && Current() == ResetSpec(old(Current()))
    {
      mode, index, learned, stats := None, 0, {}, NoStats;
    }

    method Restart()
      requires Valid()
      modifies this
      ensures Valid() && Current() == ResetSpec(old(Current()))
    {
      GoBack();
    }

    /** `goToUpload()`: resets the session and empties the store. */
    method GoToUpload()
      requires Valid()
      modifies this, store
      ensures Valid() && Current() == ResetSpec(old(Current()))
      ensures store.flashcards == [] && store.files == []
    {
      mode, index, learned, stats := None, 0, {}, NoStats;
      store.Clear();
    }

    /** `handleKeyboard(e)`: runs the handler `Dispatch` picks; `input` is
        the text of the answer box, for a check. */
    method HandleKeyboard(key: Key, inTextarea: bool, ctrl: bool, input: string)
      returns (grade: Option<Grading.Tier>)
      requires Valid()
      modifies this
      ensures Valid()
      ensures Current() == Step(old(Current()), Dispatch(key, old(mode).Some?, inTextarea, ctrl, old(flipped)),
                                |store.flashcards|)
      ensures grade == if Dispatch(key, old(mode).Some?, inTextarea, ctrl, old(flipped)) == Check
                          && old(index) < |store.flashcards|
                       then Some(Grading.Grade(input, store.flashcards[old(index)].answer))
                       else None
    {
      grade := None;
      var a := Dispatch(key, mode.Some?, inTextarea, ctrl, flipped);
      match a
      case NoAction =>
      case Flip => FlipCard();
      case Prev => PrevCard();
      case Next => NextCard();
      case Rate(c) => RateCard(c);
      case Check => grade := CheckQuizAnswer(input);
      case Back => GoBack();
    }
  }
}
