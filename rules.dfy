// The rules of the hangman game, on values: the state a game holds, the
// invariant it keeps, and what one guess does to it. The class in game.dfy
// is proved against these definitions.
module Rules {

  /** Number of stage pictures in the STATES table. */
  const StageCount: nat := 7

  /** Character a hidden position of the mask shows. */
  const Placeholder: char := '_'

  datatype Option<T> = None | Some(value: T)

  /** What one guess amounts to. */
  datatype GuessResponse = AlreadyGuessed | Incorrect | Correct | Win | Lose

  /**
   * The state of one game: the secret word, its distinct letters, the
   * letters guessed so far, the mask shown to the player, and how many
   * stage pictures have been consumed by wrong letters.
   */
  datatype State = State(
    word: seq<char>,
    letters: set<char>,
    guessed: set<char>,
    revealed: seq<char>,
    wrong: nat)

  /** The distinct characters of a word. */
  function CharsOf(w: seq<char>): set<char>
  {
    set x | x in w
  }

  /** A mask of n placeholders. */
  function Blank(n: nat): seq<char>
  {
    seq(n, _ => Placeholder)
  }

  /** Reference definition of the mask: the word with every unguessed letter hidden. */
  function MaskOf(w: seq<char>, g: set<char>): seq<char>
  {
    seq(|w|, i requires 0 <= i < |w| => if w[i] in g then w[i] else Placeholder)
  }

  /** The mask m with every position where w holds c overwritten by c. */
  function Reveal(w: seq<char>, m: seq<char>, c: char): seq<char>
    requires |m| == |w|
  {
    seq(|m|, i requires 0 <= i < |m| => if w[i] == c then c else m[i])
  }

  /** The mask is as long as the word. */
  predicate WellFormed(s: State)
  {
    |s.revealed| == |s.word|
  }

  /** A stage picture is still available: the game is not lost. */
  predicate HasPicture(s: State)
  {
    s.wrong < StageCount
  }

  /** The invariant every reachable game state keeps. */
  ghost predicate Valid(s: State)
  {
    && s.letters == CharsOf(s.word)
    && s.revealed == MaskOf(s.word, s.guessed)
    && s.wrong == |s.guessed - s.letters|
    && s.wrong <= StageCount
  }

  /** The state of a new game on word w. */
  function Init(w: seq<char>): (s: State)
    ensures Valid(s) && HasPicture(s)
  {
    State(w, CharsOf(w), {}, Blank(|w|), 0)
  }

  /** One guess of letter c: the new state and the response. The word and its letters never change. */
  function Step(s: State, c: char): (r: (State, GuessResponse))
    requires WellFormed(s)
    ensures WellFormed(r.0) && r.0.word == s.word && r.0.letters == s.letters
  {
    if !HasPicture(s) then
      (s, Lose)
    else if c in s.guessed then
      (s, AlreadyGuessed)
    else if c in s.letters then
      var t := s.(guessed := s.guessed + {c}, revealed := Reveal(s.word, s.revealed, c));
      (t, if t.revealed == t.word then Win else Correct)
    else
      var t := s.(guessed := s.guessed + {c}, wrong := s.wrong + 1);
      (t, if HasPicture(t) then Incorrect else Lose)
  }

  /** The guesses cs played one after another: the final state and every response. */
  function Run(s: State, cs: seq<char>): (State, seq<GuessResponse>)
    requires WellFormed(s)
    decreases |cs|
  {
    if cs == [] then
      (s, [])
    else
      var (t, r) := Step(s, cs[0]);
      var (u, rs) := Run(t, cs[1..]);
      (u, [r] + rs)
  }

  /** No letter occurs twice in cs. */
  predicate Distinct(cs: seq<char>)
  {
    forall i, j :: 0 <= i < j < |cs| ==> cs[i] != cs[j]
  }

  // ---------------------------------------------------------------------
  // The mask

  /** The letters of a non-empty sequence: its first and those of the rest. */
  lemma CharsOfCons(cs: seq<char>)
    requires cs != []
    ensures CharsOf(cs) == {cs[0]} + CharsOf(cs[1..])
  {
  }

  /** Every shown letter is the word's letter and has been guessed; hidden ones have not. */
  lemma MaskShape(w: seq<char>, g: set<char>)
    ensures |MaskOf(w, g)| == |w|
    ensures forall i :: 0 <= i < |w| && MaskOf(w, g)[i] != Placeholder ==>
              MaskOf(w, g)[i] == w[i] && w[i] in g
    ensures forall i :: 0 <= i < |w| && w[i] != Placeholder && w[i] !in g ==>
              MaskOf(w, g)[i] == Placeholder
  {
  }

  /** A fresh mask hides everything. */
  lemma MaskOfNothing(w: seq<char>)
    ensures MaskOf(w, {}) == Blank(|w|)
  {
  }

  /** Revealing c in the mask of g gives the mask of g plus c. */
  lemma RevealExtendsMask(w: seq<char>, g: set<char>, c: char)
    ensures Reveal(w, MaskOf(w, g), c) == MaskOf(w, g + {c})
  {
  }

  /** The mask shows the whole word exactly when every letter other than the placeholder is guessed. */
  lemma MaskCompleteIff(w: seq<char>, g: set<char>)
    ensures MaskOf(w, g) == w <==> CharsOf(w) - {Placeholder} <= g
  {
  }

  // ---------------------------------------------------------------------
  // One guess

  /** A new game: an all-placeholder mask as long as the word, nothing guessed, the first picture. */
  lemma FreshGame(w: seq<char>)
    ensures Init(w).revealed == Blank(|w|) && |Init(w).revealed| == |w|
    ensures Init(w).guessed == {} && Init(w).letters == CharsOf(w)
    ensures Init(w).wrong == 0 && HasPicture(Init(w))
  {
  }

  /** A step keeps the invariant; nothing guessed is forgotten and the picture never goes back. */
  lemma StepPreservesValid(s: State, c: char)
    requires Valid(s)
    ensures var t := Step(s, c).0;
      && Valid(t)
      && s.guessed <= t.guessed
      && s.wrong <= t.wrong <= StageCount
  {
    if HasPicture(s) && c !in s.guessed {
      if c in s.letters {
        RevealExtendsMask(s.word, s.guessed, c);
        assert (s.guessed + {c}) - s.letters == s.guessed - s.letters;
      } else {
        assert (s.guessed + {c}) - s.letters == (s.guessed - s.letters) + {c};
        assert MaskOf(s.word, s.guessed + {c}) == MaskOf(s.word, s.guessed);
      }
    }
  }

  /** A lost game answers Lose to every letter and changes nothing. */
  lemma LostGame(s: State, c: char)
    requires WellFormed(s) && !HasPicture(s)
    ensures Step(s, c) == (s, Lose)
  {
  }

  /** A letter already guessed answers AlreadyGuessed and changes nothing. */
  lemma RepeatedLetter(s: State, c: char)
    requires WellFormed(s) && HasPicture(s) && c in s.guessed
    ensures Step(s, c) == (s, AlreadyGuessed)
  {
  }

  /** A new letter in a game still going is recorded exactly once, right or wrong. */
  lemma NewLetterRecorded(s: State, c: char)
    requires WellFormed(s) && HasPicture(s) && c !in s.guessed
    ensures Step(s, c).0.guessed == s.guessed + {c}
    ensures |Step(s, c).0.guessed| == |s.guessed| + 1
  {
  }

  /**
   * A correct new letter shows c at every position of the word that holds
   * c, keeps every other position and the picture, and wins exactly when
   * every letter of the word is now guessed.
   */
  lemma CorrectLetter(s: State, c: char)
    requires Valid(s) && HasPicture(s) && c !in s.guessed && c in s.letters
    ensures var (t, r) := Step(s, c);
      && |t.revealed| == |s.word|
      && (forall i :: 0 <= i < |s.word| && s.word[i] == c ==> t.revealed[i] == c)
      && (forall i :: 0 <= i < |s.word| && s.word[i] != c ==> t.revealed[i] == s.revealed[i])
      && t.wrong == s.wrong
      && (r == Win <==> t.revealed == s.word)
      && (r == Win <==> CharsOf(s.word) - {Placeholder} <= s.guessed + {c})
      && (r == Win || r == Correct)
  {
  }

  /**
   * A wrong new letter consumes exactly one picture and keeps the mask;
   * it loses exactly when that was the last picture.
   */
  lemma WrongLetter(s: State, c: char)
    requires WellFormed(s) && HasPicture(s) && c !in s.guessed && c !in s.letters
    ensures var (t, r) := Step(s, c);
      && t.wrong == s.wrong + 1
      && t.revealed == s.revealed
      && (r == Lose <==> t.wrong == StageCount)
      && (r == Lose || r == Incorrect)
  {
  }

  /** The response is Lose exactly when no picture is left after the step. */
  lemma LoseIffNoPicture(s: State, c: char)
    requires Valid(s)
    ensures Step(s, c).1 == Lose <==> !HasPicture(Step(s, c).0)
  {
  }

  /** A won game is not frozen: a new wrong letter still consumes a picture. */
  lemma WinDoesNotFreeze(s: State, c: char)
    requires WellFormed(s) && HasPicture(s) && s.revealed == s.word
    requires c !in s.guessed && c !in s.letters
    ensures Step(s, c).0.wrong == s.wrong + 1
  {
  }

  // ---------------------------------------------------------------------
  // Whole games

  /** Run keeps the invariant; nothing guessed is forgotten and the picture never goes back. */
  lemma {:induction false} RunPreservesValid(s: State, cs: seq<char>)
    requires Valid(s)
    ensures var (u, rs) := Run(s, cs);
      && Valid(u) && u.word == s.word && |rs| == |cs|
      && s.guessed <= u.guessed && s.wrong <= u.wrong
    decreases |cs|
  {
    if cs != [] {
      StepPreservesValid(s, cs[0]);
      RunPreservesValid(Step(s, cs[0]).0, cs[1..]);
    }
  }

  /** Once lost, a game stays as it is and answers Lose to everything. */
  lemma {:induction false} LostGameStaysLost(s: State, cs: seq<char>)
    requires WellFormed(s) && !HasPicture(s)
    ensures Run(s, cs).0 == s
    ensures forall i :: 0 <= i < |Run(s, cs).1| ==> Run(s, cs).1[i] == Lose
    decreases |cs|
  {
    if cs != [] {
      LostGameStaysLost(s, cs[1..]);
    }
  }

  /** After one new letter, the remaining distinct letters are still new. */
  lemma FreshTail(s: State, cs: seq<char>)
    requires WellFormed(s) && cs != [] && Distinct(cs)
    requires forall i :: 0 <= i < |cs| ==> cs[i] !in s.guessed
    ensures Distinct(cs[1..])
    ensures forall i :: 0 <= i < |cs| - 1 ==> cs[1..][i] !in Step(s, cs[0]).0.guessed
  {
  }

  /**
   * Distinct wrong letters consume one picture each and leave the mask
   * alone; each answers Lose exactly when it consumed the last picture.
   */
  lemma {:induction false} WrongLetters(s: State, cs: seq<char>)
    requires WellFormed(s)
    requires s.wrong + |cs| <= StageCount
    requires Distinct(cs)
    requires forall i :: 0 <= i < |cs| ==> cs[i] !in s.letters && cs[i] !in s.guessed
    ensures var (u, rs) := Run(s, cs);
      && u.wrong == s.wrong + |cs|
      && u.revealed == s.revealed
      && |rs| == |cs|
      && forall i :: 0 <= i < |cs| ==>
           rs[i] == (if s.wrong + i + 1 == StageCount then Lose else Incorrect)
    decreases |cs|
  {
    if cs != [] {
      var c, rest := cs[0], cs[1..];
      WrongLetter(s, c);
      FreshTail(s, cs);
      var (t, r) := Step(s, c);
      forall i | 0 <= i < |rest| ensures rest[i] !in t.letters {
        assert rest[i] == cs[i + 1];
      }
      WrongLetters(t, rest);
      var (u, rs') := Run(t, rest);
      assert Run(s, cs) == (u, [r] + rs');
      forall i | 0 <= i < |cs|
        ensures ([r] + rs')[i] == (if s.wrong + i + 1 == StageCount then Lose else Incorrect)
      {
        if i > 0 {
          assert ([r] + rs')[i] == rs'[i - 1];
        }
      }
    }
  }

  /** A fresh game loses on the seventh distinct wrong letter and not before. */
  lemma LoseOnSeventhWrongLetter(w: seq<char>, cs: seq<char>)
    requires |cs| == StageCount && Distinct(cs)
    requires forall i :: 0 <= i < |cs| ==> cs[i] !in w
    ensures var (u, rs) := Run(Init(w), cs);
      && |rs| == StageCount
      && (forall i :: 0 <= i < StageCount - 1 ==> rs[i] == Incorrect)
      && rs[StageCount - 1] == Lose
      && !HasPicture(u)
  {
    WrongLetters(Init(w), cs);
  }

  /** Distinct correct letters keep the picture, are all recorded, and never answer Incorrect or Lose. */
  lemma {:induction false} CorrectLetters(s: State, cs: seq<char>)
    requires WellFormed(s) && HasPicture(s) && Distinct(cs)
    requires forall i :: 0 <= i < |cs| ==> cs[i] in s.letters && cs[i] !in s.guessed
    ensures var (u, rs) := Run(s, cs);
      && u.wrong == s.wrong
      && u.guessed == s.guessed + CharsOf(cs)
      && |rs| == |cs|
      && (forall i :: 0 <= i < |cs| ==> rs[i] == Win || rs[i] == Correct)
    decreases |cs|
  {
    if cs != [] {
      var c, rest := cs[0], cs[1..];
      FreshTail(s, cs);
      var (t, r) := Step(s, c);
      forall i | 0 <= i < |rest| ensures rest[i] in t.letters {
        assert rest[i] == cs[i + 1];
      }
      CorrectLetters(t, rest);
      var (u, rs') := Run(t, rest);
      assert Run(s, cs) == (u, [r] + rs');
      forall i | 0 <= i < |cs| ensures ([r] + rs')[i] == Win || ([r] + rs')[i] == Correct {
        if i > 0 {
          assert ([r] + rs')[i] == rs'[i - 1];
        }
      }
      CharsOfCons(cs);
    }
  }

  /**
   * The last of a run of distinct correct letters wins exactly when, with
   * the earlier guesses, they cover every letter of the word.
   */
  lemma {:induction false} CorrectLettersWin(s: State, cs: seq<char>)
    requires Valid(s) && HasPicture(s) && cs != [] && Distinct(cs)
    requires forall i :: 0 <= i < |cs| ==> cs[i] in s.letters && cs[i] !in s.guessed
    ensures var (u, rs) := Run(s, cs);
      && |rs| == |cs|
      && (rs[|cs| - 1] == Win <==> CharsOf(s.word) - {Placeholder} <= u.guessed)
    decreases |cs|
  {
    var c, rest := cs[0], cs[1..];
    if rest == [] {
      RevealExtendsMask(s.word, s.guessed, c);
      MaskCompleteIff(s.word, s.guessed + {c});
      assert Run(Step(s, c).0, rest) == (Step(s, c).0, []);
    } else {
      FreshTail(s, cs);
      StepPreservesValid(s, c);
      var (t, r) := Step(s, c);
      forall i | 0 <= i < |rest| ensures rest[i] in t.letters {
        assert rest[i] == cs[i + 1];
      }
      CorrectLettersWin(t, rest);
      var (u, rs') := Run(t, rest);
      assert Run(s, cs) == (u, [r] + rs');
      assert ([r] + rs')[|cs| - 1] == rs'[|rest| - 1];
    }
  }

  /** An empty word can never be won: every letter is wrong. */
  lemma {:induction false} EmptyWordNeverWins(s: State, cs: seq<char>)
    requires WellFormed(s) && s.word == [] && s.letters == {}
    ensures forall i :: 0 <= i < |Run(s, cs).1| ==> Run(s, cs).1[i] != Win
    decreases |cs|
  {
    if cs != [] {
      var (t, r) := Step(s, cs[0]);
      EmptyWordNeverWins(t, cs[1..]);
      var (u, rs') := Run(t, cs[1..]);
      assert Run(s, cs) == (u, [r] + rs');
      forall i | 0 <= i < 1 + |rs'| ensures ([r] + rs')[i] != Win {
        if i > 0 {
          assert ([r] + rs')[i] == rs'[i - 1];
        }
      }
    }
  }

  // ---------------------------------------------------------------------
  // A sample game on the word "cat"

  /** Guessing c twice: the second answers AlreadyGuessed and the mask stays c__. */
  lemma CatRepeated()
    ensures Run(Init("cat"), "cc").1 == [Correct, AlreadyGuessed]
    ensures Run(Init("cat"), "cc").0.revealed == "c__"
    ensures Run(Init("cat"), "cc").0.wrong == 0
  {
  }
}
