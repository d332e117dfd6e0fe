// The game object: the secret word, its letters, the letters guessed so far,
// the mask, and how many stage pictures wrong letters have consumed. `Guess`
// is the one operation that changes it; it is proved against `Rules.Step`.
module Game {
  import opened Rules

  class Hangman {
    const word: seq<char>
    const letters: set<char>
    var guessed: set<char>
    var revealed: seq<char>
    /** Stage pictures consumed: the picture shown is STATES[wrong] while wrong < StageCount. */
    var wrong: nat

    /** The game as a value. */
    ghost function View(): State
      reads this
    {
      State(word, letters, guessed, revealed, wrong)
    }

    ghost predicate Valid()
      reads this
    {
      Rules.Valid(View())
    }

    /** A new game on w; the empty word is accepted. */
    constructor (w: seq<char>)
      ensures Valid() && View() == Init(w)
    {
      word := w;
      letters := CharsOf(w);
      guessed := {};
      revealed := Blank(|w|);
      wrong := 0;
    }

    /** The stage to draw: none once all pictures are consumed, else the number of wrong letters so far. */
    function Picture(): (p: Option<nat>)
      reads this
      requires Valid()
      ensures p == None <==> wrong == StageCount
      ensures p.Some? ==> p.value < StageCount && p.value == |guessed - letters|
    {
      if wrong < StageCount then Some(wrong) else None
    }

    /** The mask: every guessed letter of the word shown, every other position hidden. */
    function PartiallyRevealed(): (m: seq<char>)
      reads this
      requires Valid()
      ensures |m| == |word|
      ensures forall i :: 0 <= i < |word| ==> m[i] == (if word[i] in guessed then word[i] else Placeholder)
    {
      revealed
    }

    /** The secret word, whose letters are the ones a guess is checked against. */
    function Word(): (w: seq<char>)
      reads this
      requires Valid()
      ensures CharsOf(w) == letters && |w| == |revealed|
    {
      word
    }

    /** One guess of letter c. */
    method Guess(c: char) returns (r: GuessResponse)
      requires Valid()
      modifies this
      ensures Valid()
      ensures (View(), r) == Step(old(View()), c)
      ensures r == Lose <==> Picture() == None
      ensures old(guessed) <= guessed && old(wrong) <= wrong
    {
      if wrong >= StageCount {
        r := Lose;
      } else if c in guessed {
        r := AlreadyGuessed;
      } else {
        guessed := guessed + {c};
        if c in letters {
          UpdateRevealed(c);
          r := if revealed == word then Win else Correct;
        } else {
          wrong := wrong + 1;
          r := if wrong >= StageCount then Lose else Incorrect;
        }
      }
      StepPreservesValid(old(View()), c);
      LoseIffNoPicture(old(View()), c);
    }

    /** Writes c into the mask at every position of the word that holds c. */
    method UpdateRevealed(c: char)
      requires |revealed| == |word|
      modifies this`revealed
      ensures revealed == Reveal(word, old(revealed), c)
    {
      var i := 0;
      while i < |word|
        invariant 0 <= i <= |word| && |revealed| == |word|
        invariant forall k :: 0 <= k < i ==> revealed[k] == (if word[k] == c then c else old(revealed)[k])
        invariant forall k :: i <= k < |word| ==> revealed[k] == old(revealed)[k]
      {
        if word[i] == c {
          revealed := revealed[i := c];
        }
        i := i + 1;
      }
    }
  }
}
