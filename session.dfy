/**
 * The flashcard page's study session (app.js:11-18 and the functions that update
 * that state): the deck, the card on show, what the English side currently shows,
 * the hint staircase, the order of the cards, the question counter and the timer.
 *
 * The page's `Math.random()` calls become parameters: `ShowHint` takes the positions
 * drawn from the list of hidden words, and `NextCard` the position drawn from the
 * deck.
 */
module Flashcards {
  import opened Wrappers
  import opened Text
  import opened Csv
  import opened Clock

  /** `currentMode`: what the card is showing. */
  datatype Mode = Question | Hint | Answer

  /** One word of a hint, shown plainly or blurred. */
  datatype Piece = Piece(word: string, obscured: bool)

  /** What the English side of the card shows: the whole sentence blurred, a hint
      that blurs some of its words, or the sentence in plain. */
  datatype Display = Blurred(text: string) | Hinted(pieces: seq<Piece>) | Plain(text: string)

  /** The deck used when nothing is stored (app.js:2-8). */
  const DefaultData: seq<Record> := [
    Record(1, "これはペンです。", "This is a pen."),
    Record(2, "その駅へはどう行けばいいですか？", "How can I get to the station?"),
    Record(3, "彼はテニスをするのが好きです。", "He likes playing tennis."),
    Record(4, "明日晴れたら、ピクニックに行きましょう。", "If it is sunny tomorrow, let's go on a picnic."),
    Record(5, "私はそのニュースを聞いて驚いた。", "I was surprised to hear the news.")
  ]

  /** The words of a sentence, as the hint cuts it: at every space. */
  function Words(english: string): (words: seq<string>)
    ensures |words| >= 1
  {
    Split(english, ' ')
  }

  // ---------------------------------------------------------------------------
  // The hint staircase
  // ---------------------------------------------------------------------------

  /** How many words should be visible after the next hint press, given how many are
      visible now: a third of the sentence after the first press, two thirds after
      the second, and `None` once two thirds are visible, when the hint button shows
      the answer instead. `Math.ceil(t * 0.33)` and `Math.ceil(t * 0.66)` are written
      with exact rationals. */
  function HintTarget(revealedCount: nat, totalWords: nat): Option<nat>
  {
    if revealedCount == 0 then Some((33 * totalWords + 99) / 100)
    else if 100 * revealedCount < 66 * totalWords then Some((66 * totalWords + 99) / 100)
    else None
  }

  /** The first press always aims at the ceiling of 33% of the words; a later press
      aims at the ceiling of 66% exactly while fewer than 66% are visible; and every
      target shows more words than before but no more than the sentence has. */
  lemma HintTargetBounds(revealedCount: nat, totalWords: nat)
    requires 1 <= totalWords && revealedCount <= totalWords
    ensures revealedCount == 0 ==>
      HintTarget(revealedCount, totalWords).Some? &&
      var c := HintTarget(revealedCount, totalWords).value;
      100 * (c - 1) < 33 * totalWords <= 100 * c
    ensures revealedCount > 0 ==>
      (HintTarget(revealedCount, totalWords).Some? <==> 100 * revealedCount < 66 * totalWords)
    ensures revealedCount > 0 && HintTarget(revealedCount, totalWords).Some? ==>
      var c := HintTarget(revealedCount, totalWords).value;
      100 * (c - 1) < 66 * totalWords <= 100 * c
    ensures HintTarget(revealedCount, totalWords).Some? ==>
      revealedCount < HintTarget(revealedCount, totalWords).value <= totalWords
  {
  }

  /** From a fresh card the hint button gives the answer on the second press for a
      one-word sentence and on the third press otherwise. */
  lemma HintPresses(totalWords: nat)
    requires 1 <= totalWords
    ensures HintTarget(0, totalWords).Some?
    ensures var first := HintTarget(0, totalWords).value;
      (totalWords == 1 ==> HintTarget(first, totalWords) == None) &&
      (totalWords > 1 ==>
        HintTarget(first, totalWords).Some? &&
        HintTarget(HintTarget(first, totalWords).value, totalWords) == None)
  {
    var first := (33 * totalWords + 99) / 100;
    assert 100 * first <= 33 * totalWords + 99;
    if totalWords > 1 {
      assert 100 * first < 66 * totalWords;
      var second := (66 * totalWords + 99) / 100;
      assert 66 * totalWords <= 100 * second;
    }
  }

  // ---------------------------------------------------------------------------
  // Hidden words and the words a hint reveals
  // ---------------------------------------------------------------------------

  /** The positions below `n` not yet revealed, in increasing order: the list the
      hint builds before drawing. */
  function HiddenIndices(revealed: set<nat>, n: nat): seq<nat>
  {
    if n == 0 then []
    else HiddenIndices(revealed, n - 1) + (if n - 1 in revealed then [] else [n - 1])
  }

  /** No position occurs twice. */
  predicate Distinct(s: seq<nat>)
  {
    forall i, j :: 0 <= i < j < |s| ==> s[i] != s[j]
  }

  /** The revealed positions below `n`. */
  function Below(revealed: set<nat>, n: nat): set<nat>
  {
    set x | x in revealed && x < n
  }

  /** The hidden list holds each position below `n` that is not revealed, once, and
      with the revealed ones below `n` it accounts for all `n` positions. */
  lemma {:induction false} HiddenIndicesSpec(revealed: set<nat>, n: nat)
    ensures forall x: nat :: x in HiddenIndices(revealed, n) <==> x < n && x !in revealed
    ensures Distinct(HiddenIndices(revealed, n))
    ensures |HiddenIndices(revealed, n)| + |Below(revealed, n)| == n
  {
    if n > 0 {
      HiddenIndicesSpec(revealed, n - 1);
      var front := HiddenIndices(revealed, n - 1);
      var hidden := HiddenIndices(revealed, n);
      if n - 1 in revealed {
        assert hidden == front;
        assert Below(revealed, n) == Below(revealed, n - 1) + {n - 1};
      } else {
        assert hidden == front + [n - 1];
        assert forall i :: 0 <= i < |front| ==> front[i] in front;
        assert Below(revealed, n) == Below(revealed, n - 1);
      }
      forall x: nat | x < n && x !in revealed
        ensures x in hidden
      {
        if x < n - 1 {
          assert x in front;
        } else {
          assert hidden[|hidden| - 1] == x;
        }
      }
    }
  }

  /** When every revealed position is a word of the sentence, the hidden list has
      one entry per word not revealed. */
  lemma HiddenCount(revealed: set<nat>, n: nat)
    requires forall x :: x in revealed ==> x < n
    ensures |HiddenIndices(revealed, n)| == n - |revealed|
    ensures |revealed| <= n
  {
    HiddenIndicesSpec(revealed, n);
    assert Below(revealed, n) == revealed;
  }

  /** The positions a sequence of draws may take from a list of `count` entries: the
      first draw picks among all `count`, each later one among one entry fewer. */
  predicate DrawsFit(draws: seq<nat>, count: int)
  {
    |draws| == count && forall i :: 0 <= i < |draws| ==> draws[i] < count - i
  }

  /** `hidden.splice(k, 1)`: the list without its entry at position `k`. */
  function Splice(s: seq<nat>, k: nat): seq<nat>
    requires k < |s|
  {
    s[..k] + s[k + 1..]
  }

  /** Removing an entry keeps only entries of the list. */
  lemma SpliceWithin(s: seq<nat>, k: nat)
    requires k < |s|
    ensures forall x :: x in Splice(s, k) ==> x in s
  {
    assert forall x :: x in s[..k] ==> x in s;
    assert forall x :: x in s[k + 1..] ==> x in s;
  }

  /** Removing an entry from a list without repeats leaves a list without repeats
      that no longer holds the entry. */
  lemma SpliceDistinct(s: seq<nat>, k: nat)
    requires k < |s| && Distinct(s)
    ensures Distinct(Splice(s, k))
    ensures s[k] !in Splice(s, k)
  {
    var r := Splice(s, k);
    forall i | 0 <= i < |r|
      ensures r[i] == s[if i < k then i else i + 1]
    {
    }
  }

  /** The draws after the first fit the list once the first drawn entry is gone. */
  lemma DrawsFitTail(draws: seq<nat>, count: int)
    requires DrawsFit(draws, count) && count > 0
    ensures DrawsFit(draws[1..], count - 1)
  {
    forall i | 0 <= i < |draws| - 1
      ensures draws[1..][i] < count - 1 - i
    {
      assert draws[1..][i] == draws[i + 1];
    }
  }

  /** The positions the hint reveals: it draws `wanted` times, or until the hidden
      list runs out, each time taking the drawn entry out of the list. (A draw
      outside the list, which `DrawsFit` rules out, ends the drawing.) */
  function Picks(hidden: seq<nat>, draws: seq<nat>, wanted: int): set<nat>
    decreases |draws|
  {
    if wanted <= 0 || hidden == [] || draws == [] || draws[0] >= |hidden| then {}
    else {hidden[draws[0]]} + Picks(Splice(hidden, draws[0]), draws[1..], wanted - 1)
  }

  /** One draw: the drawn entry, then what the other draws take from the rest. */
  lemma PicksStep(hidden: seq<nat>, draws: seq<nat>, wanted: int)
    requires DrawsFit(draws, |hidden|) && wanted > 0 && hidden != []
    ensures draws != [] && draws[0] < |hidden|
    ensures Picks(hidden, draws, wanted) ==
      {hidden[draws[0]]} + Picks(Splice(hidden, draws[0]), draws[1..], wanted - 1)
  {
  }

  /** The draws reveal only entries of the hidden list. */
  lemma {:induction false} PicksWithin(hidden: seq<nat>, draws: seq<nat>, wanted: int)
    ensures forall x :: x in Picks(hidden, draws, wanted) ==> x in hidden
    decreases |draws|
  {
    if !(wanted <= 0 || hidden == [] || draws == [] || draws[0] >= |hidden|) {
      var rest := Splice(hidden, draws[0]);
      PicksWithin(rest, draws[1..], wanted - 1);
      SpliceWithin(hidden, draws[0]);
    }
  }

  /** From a list without repeats the draws reveal `wanted` different entries of the
      list, or all of them when the list is shorter. */
  lemma {:induction false} PicksCount(hidden: seq<nat>, draws: seq<nat>, wanted: nat)
    requires DrawsFit(draws, |hidden|) && Distinct(hidden)
    ensures |Picks(hidden, draws, wanted)| == if wanted < |hidden| then wanted else |hidden|
    decreases |draws|
  {
    if wanted > 0 && hidden != [] {
      var k := draws[0];
      var rest := Splice(hidden, k);
      DrawsFitTail(draws, |hidden|);
      SpliceDistinct(hidden, k);
      PicksCount(rest, draws[1..], wanted - 1);
      PicksWithin(rest, draws[1..], wanted - 1);
      assert Picks(hidden, draws, wanted) == {hidden[k]} + Picks(rest, draws[1..], wanted - 1);
    }
  }

  /** A hint press that aims at `target` visible words reaches exactly `target`
      visible words, all of them words of the sentence, whatever the draws. */
  lemma HintReveals(revealed: set<nat>, totalWords: nat, draws: seq<nat>, target: nat)
    requires forall x :: x in revealed ==> x < totalWords
    requires |revealed| < target <= totalWords
    requires DrawsFit(draws, totalWords - |revealed|)
    ensures var picked := Picks(HiddenIndices(revealed, totalWords), draws, target - |revealed|);
      |revealed + picked| == target && forall x :: x in revealed + picked ==> x < totalWords
  {
    var hidden := HiddenIndices(revealed, totalWords);
    var wanted := target - |revealed|;
    var picked := Picks(hidden, draws, wanted);
    assert |picked| == wanted by {
      HiddenIndicesSpec(revealed, totalWords);
      HiddenCount(revealed, totalWords);
      PicksCount(hidden, draws, wanted);
    }
    assert forall x :: x in picked ==> x < totalWords && x !in revealed by {
      HiddenIndicesSpec(revealed, totalWords);
      PicksWithin(hidden, draws, wanted);
    }
    assert revealed * picked == {};
  }

  // ---------------------------------------------------------------------------
  // Rendering a hint
  // ---------------------------------------------------------------------------

  /** The hint's rendering: every word, blurred unless its position is revealed. */
  function Render(words: seq<string>, revealed: set<nat>): (pieces: seq<Piece>)
  {
    seq(|words|, i requires 0 <= i < |words| => Piece(words[i], i !in revealed))
  }

  /** The words of a rendering, blurred or not. */
  function PieceWords(pieces: seq<Piece>): seq<string>
  {
    seq(|pieces|, i requires 0 <= i < |pieces| => pieces[i].word)
  }

  /** The hint's words joined by spaces read the whole sentence, and the blurred
      words are exactly the ones on the hidden list. */
  lemma RenderReadsSentence(english: string, revealed: set<nat>)
    ensures Join(PieceWords(Render(Words(english), revealed)), ' ') == english
    ensures var pieces := Render(Words(english), revealed);
      forall i :: 0 <= i < |pieces| ==>
        (pieces[i].obscured <==> i in HiddenIndices(revealed, |pieces|))
  {
    assert PieceWords(Render(Words(english), revealed)) == Words(english);
    JoinSplit(english, ' ');
    HiddenIndicesSpec(revealed, |Words(english)|);
  }

  // ---------------------------------------------------------------------------
  // Card order
  // ---------------------------------------------------------------------------

  /** The card after card `current` of a deck of `n` cards, where `k` is the position
      a random draw gave. In order, the next card, back to the first after the last.
      In random order, the drawn card, moved on by one when it repeats the current
      card of a deck with more than one card. */
  function NextIndex(random: bool, current: nat, n: nat, k: nat): (next: nat)
    requires current < n && k < n
    ensures next < n
    ensures !random ==> (if current + 1 < n then next == current + 1 else next == 0)
    ensures random && (k != current || n == 1) ==> next == k
    ensures random && n > 1 ==> next != current
  {
    if random then
      (if n > 1 && k == current then (k + 1) % n else k)
    else (current + 1) % n
  }

  // ---------------------------------------------------------------------------
  // The session
  // ---------------------------------------------------------------------------

  /** The page's global state (app.js:11-18) and the `englishText` element's
      content, leaving out the timer's interval handle. */
  class Session {
    var appData: seq<Record>
    var currentIndex: nat
    var mode: Mode
    var isRandom: bool
    var studySeconds: nat
    var questionCount: nat
    var revealed: set<nat>
    var display: Display

    /** The English sentence of the card on show. */
    function Sentence(): string
      reads this`appData, this`currentIndex
      requires currentIndex < |appData|
    {
      appData[currentIndex].english
    }

    /** A card is on show and every revealed position is a word of its sentence. */
    ghost predicate Ready()
      reads this
    {
      0 < |appData| && currentIndex < |appData| &&
      forall x :: x in revealed ==> x < |Words(Sentence())|
    }

    /** Ready, and the English side shows what the mode says: the blurred sentence
        with nothing revealed, the hint for the revealed words, or the sentence. */
    ghost predicate Valid()
      reads this
    {
      Ready() &&
      (mode == Question ==> revealed == {} && display == Blurred(Sentence())) &&
      (mode == Hint ==> display == Hinted(Render(Words(Sentence()), revealed))) &&
      (mode == Answer ==> display == Plain(Sentence()))
    }

    /** The text of the study timer. */
    function TimerDisplay(): string
      reads this
    {
      TimerText(studySeconds)
    }

    /** `init` after `loadData`: the stored deck, or the default deck when nothing is
        stored, the order setting stored as the text `true` or not, the first card
        shown as a question, and the timer and the counter at zero. */
    constructor (stored: Option<seq<Record>>, storedRandom: Option<string>)
      requires stored.None? || |stored.value| > 0
      ensures Valid()
      ensures appData == (if stored.Some? then stored.value else DefaultData)
      ensures isRandom <==> storedRandom == Some("true")
      ensures currentIndex == 0 && mode == Question && revealed == {}
      ensures display == Blurred(appData[0].english)
      ensures studySeconds == 0 && questionCount == 0
    {
      var deck := if stored.Some? then stored.value else DefaultData;
      appData := deck;
      isRandom := storedRandom == Some("true");
      currentIndex := 0;
      mode := Question;
      studySeconds := 0;
      questionCount := 0;
      revealed := {};
      display := Blurred(deck[0].english);
      new;
      ShowCard();
    }

    /** `showCard(currentIndex)`: nothing happens with an empty deck; otherwise the
        card becomes a question again, its sentence blurred and nothing revealed. */
    method ShowCard()
      requires |appData| == 0 || currentIndex < |appData|
      modifies this
      ensures appData == old(appData) && currentIndex == old(currentIndex)
      ensures isRandom == old(isRandom) && studySeconds == old(studySeconds)
      ensures questionCount == old(questionCount)
      ensures |appData| == 0 ==>
        mode == old(mode) && revealed == old(revealed) && display == old(display)
      ensures |appData| > 0 ==>
        Valid() && mode == Question && revealed == {} && display == Blurred(Sentence())
    {
      if |appData| == 0 {
        return;
      }
      mode := Question;
      display := Blurred(Sentence());
      revealed := {};
    }

    /** `showHint(draws)`: the first press reveals a third of the words, a press while
        fewer than two thirds are visible reveals up to two thirds, and any other
        press shows the answer. `draws[i]` is the position the `i`-th random draw
        takes in the shrinking list of hidden words. */
    method ShowHint(draws: seq<nat>)
      requires Ready()
      requires DrawsFit(draws, |Words(Sentence())| - |revealed|)
      modifies this
      ensures Valid()
      ensures appData == old(appData) && currentIndex == old(currentIndex)
      ensures isRandom == old(isRandom) && studySeconds == old(studySeconds)
      ensures old(revealed) <= revealed
      ensures var target := HintTarget(|old(revealed)|, |Words(Sentence())|);
        target.None? ==>
          mode == Answer && questionCount == old(questionCount) + 1 && revealed == old(revealed)
      ensures var totalWords := |Words(Sentence())|;
        var target := HintTarget(|old(revealed)|, totalWords);
        target.Some? ==>
          mode == Hint && questionCount == old(questionCount) && |revealed| == target.value &&
          revealed == old(revealed) +
            Picks(HiddenIndices(old(revealed), totalWords), draws, target.value - |old(revealed)|)
    {
      mode := Hint;
      var words := Words(Sentence());
      var totalWords := |words|;
      var revealedCount := |revealed|;
      HiddenCount(revealed, totalWords);
      HintTargetBounds(revealedCount, totalWords);
      var target := HintTarget(revealedCount, totalWords);
      if target.None? {
        ShowAnswer();
        return;
      }
      RevealHint(target.value, draws);
    }

    /** The revealing part of `showHint`, once the target is known: lists the hidden
        positions, reveals drawn ones until `targetCount` words are visible, and
        renders the hint. */
    method RevealHint(targetCount: nat, draws: seq<nat>)
      requires Ready() && mode == Hint
      requires |revealed| < targetCount <= |Words(Sentence())|
      requires DrawsFit(draws, |Words(Sentence())| - |revealed|)
      modifies this
      ensures Valid() && mode == Hint && |revealed| == targetCount
      ensures revealed == old(revealed) +
        Picks(HiddenIndices(old(revealed), |Words(Sentence())|), draws, targetCount - |old(revealed)|)
      ensures appData == old(appData) && currentIndex == old(currentIndex)
      ensures isRandom == old(isRandom) && studySeconds == old(studySeconds)
      ensures questionCount == old(questionCount)
    {
      var words := Words(Sentence());
      var totalWords := |words|;
      var hiddenIndices: seq<nat> := [];
      for i := 0 to totalWords
        invariant hiddenIndices == HiddenIndices(revealed, i)
        invariant unchanged(this)
      {
        if i !in revealed {
          hiddenIndices := hiddenIndices + [i];
        }
      }
      HiddenCount(revealed, totalWords);
      HintReveals(revealed, totalWords, draws, targetCount);
      var wordsToReveal := targetCount - |revealed|;
      RevealDrawn(hiddenIndices, draws, wordsToReveal);
      display := Hinted(Render(words, revealed));
    }

    /** The drawing part of `showHint`: `wanted` times, or until the hidden list is
        empty, the drawn entry of the hidden list is revealed and taken out of the
        list. */
    method RevealDrawn(hidden: seq<nat>, draws: seq<nat>, wanted: nat)
      requires DrawsFit(draws, |hidden|)
      modifies this
      ensures revealed == old(revealed) + Picks(hidden, draws, wanted)
      ensures appData == old(appData) && currentIndex == old(currentIndex)
      ensures mode == old(mode) && display == old(display)
      ensures isRandom == old(isRandom) && studySeconds == old(studySeconds)
      ensures questionCount == old(questionCount)
    {
      var hiddenIndices := hidden;
      var i := 0;
      while i < wanted && |hiddenIndices| > 0
        invariant 0 <= i <= wanted
        invariant |hiddenIndices| == |hidden| - i
        invariant DrawsFit(draws[i..], |hiddenIndices|)
        invariant revealed + Picks(hiddenIndices, draws[i..], wanted - i) ==
          old(revealed) + Picks(hidden, draws, wanted)
        invariant appData == old(appData) && currentIndex == old(currentIndex)
        invariant mode == old(mode) && display == old(display)
        invariant isRandom == old(isRandom) && studySeconds == old(studySeconds)
        invariant questionCount == old(questionCount)
        decreases wanted - i
      {
        PicksStep(hiddenIndices, draws[i..], wanted - i);
        DrawsFitTail(draws[i..], |hiddenIndices|);
        assert draws[i..][1..] == draws[i + 1..];
        var randomIndex := draws[i];
        var wordIndex := hiddenIndices[randomIndex];
        revealed := revealed + {wordIndex};
        hiddenIndices := Splice(hiddenIndices, randomIndex);
        i := i + 1;
      }
      assert Picks(hiddenIndices, draws[i..], wanted - i) == {};
    }

    /** `showAnswer`: the sentence in plain, and one more question answered. */
    method ShowAnswer()
      requires Ready()
      modifies this
      ensures Valid() && mode == Answer && display == Plain(Sentence())
      ensures questionCount == old(questionCount) + 1
      ensures appData == old(appData) && currentIndex == old(currentIndex)
      ensures revealed == old(revealed)
      ensures isRandom == old(isRandom) && studySeconds == old(studySeconds)
    {
      mode := Answer;
      display := Plain(Sentence());
      questionCount := questionCount + 1;
    }

    /** `nextCard(k)`: moves to the card `NextIndex` picks, where `k` is the random
        draw, and shows it as a question. */
    method NextCard(k: nat)
      requires currentIndex < |appData| && k < |appData|
      modifies this
      ensures appData == old(appData) && isRandom == old(isRandom)
      ensures currentIndex == NextIndex(isRandom, old(currentIndex), |appData|, k)
      ensures Valid() && mode == Question && revealed == {} && display == Blurred(Sentence())
      ensures studySeconds == old(studySeconds) && questionCount == old(questionCount)
    {
      if isRandom {
        var nextIndex := k;
        if |appData| > 1 && nextIndex == currentIndex {
          nextIndex := (nextIndex + 1) % |appData|;
        }
        currentIndex := nextIndex;
      } else {
        currentIndex := (currentIndex + 1) % |appData|;
      }
      ShowCard();
    }

    /** `resetCounter`: the question counter goes back to zero. */
    method ResetCounter()
      modifies this
      ensures questionCount == 0
      ensures appData == old(appData) && currentIndex == old(currentIndex)
      ensures mode == old(mode) && revealed == old(revealed) && display == old(display)
      ensures isRandom == old(isRandom) && studySeconds == old(studySeconds)
    {
      questionCount := 0;
    }

    /** One tick of the running timer (app.js:55-58). */
    method Tick()
      modifies this
      ensures studySeconds == old(studySeconds) + 1
      ensures appData == old(appData) && currentIndex == old(currentIndex)
      ensures mode == old(mode) && revealed == old(revealed) && display == old(display)
      ensures isRandom == old(isRandom) && questionCount == old(questionCount)
    {
      studySeconds := studySeconds + 1;
    }

    /** `resetTimer`: the study time goes back to zero, shown as `00:00`. */
    method ResetTimer()
      modifies this
      ensures studySeconds == 0 && TimerDisplay() == "00:00"
      ensures appData == old(appData) && currentIndex == old(currentIndex)
      ensures mode == old(mode) && revealed == old(revealed) && display == old(display)
      ensures isRandom == old(isRandom) && questionCount == old(questionCount)
    {
      studySeconds := 0;
    }

    /** The random-order checkbox changed (app.js:348-351). */
    method SetRandomOrder(checked: bool)
      modifies this
      ensures isRandom == checked
      ensures appData == old(appData) && currentIndex == old(currentIndex)
      ensures mode == old(mode) && revealed == old(revealed) && display == old(display)
      ensures studySeconds == old(studySeconds) && questionCount == old(questionCount)
    {
      isRandom := checked;
    }

    /** `saveData(text)`: parses every line of the trimmed text; when at least one
        line gives a record the records replace the deck and its first card is
        shown, and otherwise nothing changes. */
    method SaveData(text: string) returns (saved: bool)
      requires Valid()
      modifies this
      ensures Valid()
      ensures saved <==> |ParseText(text)| > 0
      ensures saved ==>
        appData == ParseText(text) && currentIndex == 0 &&
        mode == Question && revealed == {} && display == Blurred(appData[0].english)
      ensures !saved ==>
        appData == old(appData) && currentIndex == old(currentIndex) &&
        mode == old(mode) && revealed == old(revealed) && display == old(display)
      ensures isRandom == old(isRandom) && studySeconds == old(studySeconds)
      ensures questionCount == old(questionCount)
    {
      var lines := Split(Trim(text), '\n');
      var newData: seq<Record> := [];
      for index := 0 to |lines|
        invariant newData == ParseLines(lines[..index])
        invariant unchanged(this)
      {
        var parts := ScanLine(lines[index]);
        var cleanParts := CleanAll(parts);
        if |cleanParts| >= 2 {
          newData := newData + [Record(index + 1, cleanParts[0], Join(cleanParts[1..], ','))];
        }
        ParseLinesStep(lines, index);
      }
      assert lines[..|lines|] == lines;

      if |newData| > 0 {
        appData := newData;
        currentIndex := 0;
        ShowCard();
        saved := true;
      } else {
        saved := false;
      }
    }
  }

  /** Saving the export of a deck whose texts survive export keeps the same texts in
      the same order, renumbers the records 1..n (closing any gaps a rejected line
      left in the ids) and shows the first card as a question; the order setting, the
      study time and the question counter are kept. */
  method SaveExported(s: Session) returns (saved: bool)
    requires s.Valid()
    requires forall k :: 0 <= k < |s.appData| ==>
      Exportable(s.appData[k].japanese) && Exportable(s.appData[k].english)
    modifies s
    ensures saved && s.currentIndex == 0 && |s.appData| == |old(s.appData)|
    ensures forall k :: 0 <= k < |s.appData| ==>
      s.appData[k] == Record(k + 1, old(s.appData)[k].japanese, old(s.appData)[k].english)
    ensures s.Valid() && s.mode == Question && s.revealed == {}
    ensures s.isRandom == old(s.isRandom) && s.studySeconds == old(s.studySeconds)
    ensures s.questionCount == old(s.questionCount)
  {
    var text := Export(s.appData);
    ExportParseRoundTrip(s.appData);
    saved := s.SaveData(text);
  }
}
