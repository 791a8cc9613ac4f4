/**
 * The hint the server sends for a valid, non-winning guess (server.py,
 * `hint_generator`). A first pass writes every exact match in upper case; a
 * second pass, in position order, writes a misplaced letter in lower case
 * only while the markers already given for that letter stay below the
 * letter's number of occurrences in the answer. Every other slot keeps '_'.
 */
module Hint {
  import opened Text
  import opened Wire

  const Blank: char := '_'

  /** The hint after the first loop: exact matches upper-cased, blanks elsewhere. */
  function FirstPass(guess: string, answer: string): (h: seq<char>)
    requires |guess| <= WordLength == |answer|
  {
    seq(WordLength, j requires 0 <= j < WordLength =>
      if j < |guess| && guess[j] == answer[j] then Upper(guess[j]) else Blank)
  }

  /** Markers already given for `c`: its upper- and its lower-case form both count. */
  function Markers(hint: seq<char>, c: char): nat
  {
    Count(hint, c) + Count(hint, Lower(c))
  }

  /** One iteration of the second loop, at position `i`. */
  function SecondPassStep(guess: string, answer: string, hint: seq<char>, i: nat): seq<char>
    requires |guess| <= WordLength == |answer| == |hint| && i < |guess|
  {
    var g := guess[i];
    if g in answer && g != answer[i] && Markers(hint, g) < Count(answer, g)
    then hint[i := Lower(g)]
    else hint
  }

  /** The hint after the first loop and `k` iterations of the second one. */
  function HintAfter(guess: string, answer: string, k: nat): (h: seq<char>)
    requires |guess| <= WordLength == |answer| && k <= |guess|
    ensures |h| == WordLength
    ensures forall j :: 0 <= j < |guess| && guess[j] == answer[j] ==> h[j] == Upper(guess[j])
    ensures forall j :: k <= j < WordLength && !(j < |guess| && guess[j] == answer[j]) ==> h[j] == Blank
    ensures forall j :: 0 <= j < k && guess[j] != answer[j] ==>
              h[j] == Blank || (h[j] == Lower(guess[j]) && guess[j] in answer)
  {
    if k == 0 then FirstPass(guess, answer)
    else SecondPassStep(guess, answer, HintAfter(guess, answer, k - 1), k - 1)
  }

  /**
   * `hint_generator(guess, answer)`. The source builds five slots and reads
   * `answer[i]` for every position of the guess, so it needs a guess of at
   * most five characters and a five-character answer.
   */
  function Generate(guess: string, answer: string): (hint: string)
    requires |guess| <= WordLength == |answer|
    ensures |hint| == WordLength
    ensures forall j :: |guess| <= j < WordLength ==> hint[j] == Blank
    ensures forall j :: 0 <= j < |guess| && guess[j] == answer[j] ==> hint[j] == Upper(guess[j])
    ensures forall j :: 0 <= j < |guess| && guess[j] != answer[j] ==>
              hint[j] == Blank || hint[j] == Lower(guess[j])
    ensures forall j :: 0 <= j < |guess| && guess[j] !in answer ==> hint[j] == Blank
  {
    HintAfter(guess, answer, |guess|)
  }

  /** The winning guess, were it ever scored, would be all exact markers: the answer upper-cased. */
  lemma {:induction false} WinningGuessHint(guess: string, answer: string)
    requires |guess| <= WordLength == |answer| && guess == answer
    ensures Generate(guess, answer) == ToUpper(answer)
  {
    var h := Generate(guess, answer);
    assert forall j :: 0 <= j < WordLength ==> h[j] == ToUpper(answer)[j];
  }

  /** For a letter of the guess, the slot is upper case exactly when the letter is in place. */
  lemma ExactIffUpper(guess: string, answer: string, i: nat)
    requires |guess| <= WordLength == |answer| && i < |guess| && IsLetter(guess[i])
    ensures Generate(guess, answer)[i] == Upper(guess[i]) <==> guess[i] == answer[i]
  {
  }

  /** A guess made only of letters gets a hint made only of letters and blanks. */
  lemma HintOfLettersHasNoDigit(guess: string, answer: string)
    requires |guess| <= WordLength == |answer|
    requires forall j :: 0 <= j < |guess| ==> IsLetter(guess[j])
    ensures HasNoDigit(Generate(guess, answer))
  {
  }

  // ---------------------------------------------------------------------
  // The frequency rule, stated without reference to the two loops.
  // ---------------------------------------------------------------------

  /** Positions below `n` where guess and answer both hold `c`. */
  function ExactHits(guess: string, answer: string, c: char, n: nat): nat
    requires n <= |guess| <= |answer|
  {
    if n == 0 then 0
    else ExactHits(guess, answer, c, n - 1) + (if guess[n - 1] == c && answer[n - 1] == c then 1 else 0)
  }

  /** Positions below `n` where the guess holds `c` but the answer does not. */
  function Candidates(guess: string, answer: string, c: char, n: nat): nat
    requires n <= |guess| <= |answer|
  {
    if n == 0 then 0
    else Candidates(guess, answer, c, n - 1) + (if guess[n - 1] == c && answer[n - 1] != c then 1 else 0)
  }

  function Min(a: nat, b: nat): nat { if a <= b then a else b }

  lemma {:induction false} ExactHitsBound(guess: string, answer: string, c: char, n: nat)
    requires n <= |guess| <= |answer|
    ensures ExactHits(guess, answer, c, n) <= Count(answer[..n], c)
    decreases n
  {
    if n > 0 {
      ExactHitsBound(guess, answer, c, n - 1);
      assert answer[..n][..n - 1] == answer[..n - 1];
    }
  }

  lemma {:induction false} HitsAndCandidates(guess: string, answer: string, c: char, n: nat)
    requires n <= |guess| <= |answer|
    ensures ExactHits(guess, answer, c, n) + Candidates(guess, answer, c, n) == Count(guess[..n], c)
    decreases n
  {
    if n > 0 {
      HitsAndCandidates(guess, answer, c, n - 1);
      assert guess[..n][..n - 1] == guess[..n - 1];
    }
  }

  lemma {:induction false} FirstPassCount(guess: string, answer: string, c: char, n: nat)
    requires |guess| <= WordLength == |answer| && IsUpperCase(guess) && IsUpperLetter(c) && n <= WordLength
    ensures Count(FirstPass(guess, answer)[..n], c)
         == ExactHits(guess, answer, c, if n <= |guess| then n else |guess|)
    decreases n
  {
    if n > 0 {
      var h := FirstPass(guess, answer);
      FirstPassCount(guess, answer, c, n - 1);
      assert h[..n][..n - 1] == h[..n - 1];
      assert Count(h[..n], c) == Count(h[..n - 1], c) + (if h[n - 1] == c then 1 else 0);
      if n - 1 < |guess| {
        assert Upper(guess[n - 1]) == guess[n - 1];
        assert h[n - 1] == c <==> guess[n - 1] == c && answer[n - 1] == c;
      } else {
        assert h[n - 1] == Blank;
      }
    }
  }

  lemma NoLowerInFirstPass(guess: string, answer: string, c: char)
    requires |guess| <= WordLength == |answer| && IsUpperLetter(c)
    ensures Count(FirstPass(guess, answer), Lower(c)) == 0
  {
    var h := FirstPass(guess, answer);
    CountPositive(h, Lower(c));
    if Lower(c) in h {
      var j :| 0 <= j < |h| && h[j] == Lower(c);
      assert false;
    }
  }

  /** The only slot the `k`-th step can touch is slot `k`; later steps leave earlier slots alone. */
  lemma {:induction false} SlotSettled(guess: string, answer: string, j: nat, k: nat)
    requires |guess| <= WordLength == |answer| && j < k <= |guess|
    ensures HintAfter(guess, answer, k)[j] == HintAfter(guess, answer, j + 1)[j]
    decreases k
  {
    if k > j + 1 {
      SlotSettled(guess, answer, j, k - 1);
    }
  }

  /**
   * After `k` steps of the second loop the markers for an upper-case letter
   * `c` number the exact hits plus the misplaced occurrences met so far,
   * capped at the letter's count in the answer.
   */
  lemma {:induction false} MarkersAfter(guess: string, answer: string, c: char, k: nat)
    requires |guess| <= WordLength == |answer| && IsUpperCase(guess) && IsUpperLetter(c) && k <= |guess|
    ensures Markers(HintAfter(guess, answer, k), c)
         == Min(Count(answer, c), ExactHits(guess, answer, c, |guess|) + Candidates(guess, answer, c, k))
    decreases k
  {
    var e := ExactHits(guess, answer, c, |guess|);
    ExactHitsBound(guess, answer, c, |guess|);
    CountPrefix(answer, |guess|, c);
    if k == 0 {
      var h := FirstPass(guess, answer);
      FirstPassCount(guess, answer, c, WordLength);
      assert h[..WordLength] == h;
      NoLowerInFirstPass(guess, answer, c);
    } else {
      var i := k - 1;
      var g := guess[i];
      var h := HintAfter(guess, answer, i);
      var h' := HintAfter(guess, answer, k);
      MarkersAfter(guess, answer, c, i);
      CountPositive(answer, g);
      if g != answer[i] && h' != h {
        assert h[i] == Blank && h' == h[i := Lower(g)];
        CountUpdate(h, i, Lower(g), c);
        CountUpdate(h, i, Lower(g), Lower(c));
        if g != c {
          if IsUpperLetter(g) {
            LowerInjectiveOnUpper(g, c);
          }
        }
      }
    }
  }

  /**
   * Reference definition of every slot: an exact match shows the letter; a
   * misplaced upper-case letter shows in lower case exactly when the exact
   * hits for it plus its misplaced occurrences to the left stay below its
   * count in the answer; otherwise the slot is blank.
   */
  lemma {:induction false} HintReference(guess: string, answer: string, i: nat)
    requires |guess| <= WordLength == |answer| && IsUpperCase(guess) && i < |guess| && IsUpperLetter(guess[i])
    ensures Generate(guess, answer)[i] ==
      if guess[i] == answer[i] then guess[i]
      else if ExactHits(guess, answer, guess[i], |guess|) + Candidates(guess, answer, guess[i], i)
              < Count(answer, guess[i])
      then Lower(guess[i])
      else Blank
  {
    var g := guess[i];
    var h := HintAfter(guess, answer, i);
    var h1 := HintAfter(guess, answer, i + 1);
    SlotSettled(guess, answer, i, |guess|);
    assert Generate(guess, answer)[i] == h1[i];
    if g == answer[i] {
      assert h1[i] == Upper(g) == g;
    } else {
      assert h[i] == Blank;
      assert h1 == SecondPassStep(guess, answer, h, i);
      MarkersAfter(guess, answer, g, i);
      CountPositive(answer, g);
      ExactHitsBound(guess, answer, g, |guess|);
      CountPrefix(answer, |guess|, g);
      assert Markers(h, g) < Count(answer, g) <==>
        ExactHits(guess, answer, g, |guess|) + Candidates(guess, answer, g, i) < Count(answer, g);
    }
  }

  /**
   * No over- and no under-disclosure: an upper-case letter receives exactly
   * as many markers as the smaller of its counts in the guess and the answer.
   */
  lemma {:induction false} LetterMarkers(guess: string, answer: string, c: char)
    requires |guess| <= WordLength == |answer| && IsUpperCase(guess) && IsUpperLetter(c)
    ensures Markers(Generate(guess, answer), c) == Min(Count(answer, c), Count(guess, c))
  {
    MarkersAfter(guess, answer, c, |guess|);
    HitsAndCandidates(guess, answer, c, |guess|);
    assert guess[..|guess|] == guess;
  }

  /** Counting in a five-element sequence, slot by slot. */
  lemma CountFive<T>(s: seq<T>, x: T)
    requires |s| == 5
    ensures Count(s, x) == (if s[0] == x then 1 else 0) + (if s[1] == x then 1 else 0)
      + (if s[2] == x then 1 else 0) + (if s[3] == x then 1 else 0) + (if s[4] == x then 1 else 0)
  {
    assert s[..4][..3] == s[..3] && s[..3][..2] == s[..2] && s[..2][..1] == s[..1] && s[..1][..0] == [];
    assert Count(s, x) == Count(s[..4], x) + (if s[4] == x then 1 else 0);
    assert Count(s[..4], x) == Count(s[..3], x) + (if s[3] == x then 1 else 0);
    assert Count(s[..3], x) == Count(s[..2], x) + (if s[2] == x then 1 else 0);
    assert Count(s[..2], x) == Count(s[..1], x) + (if s[1] == x then 1 else 0);
    assert Count(s[..1], x) == (if s[0] == x then 1 else 0);
  }

  /** A fixed vector traced by hand through the two loops: no second-pass marker arises. */
  lemma SlateVector()
    ensures Generate("SLATE", "CRANE") == "__A_E"
  {
    var h := Generate("SLATE", "CRANE");
    assert 'S' !in "CRANE" && 'L' !in "CRANE" && 'T' !in "CRANE";
    assert h[0] == '_' && h[1] == '_' && h[2] == 'A' && h[3] == '_' && h[4] == 'E';
  }

  /** The first two steps of the second loop for LLAMA against ALLOY. */
  lemma LlamaFirstSteps()
    ensures HintAfter("LLAMA", "ALLOY", 2) == "lL___"
  {
    var g, a := "LLAMA", "ALLOY";
    CountFive(a, 'L');
    assert HintAfter(g, a, 0) == "_L___";
    CountFive("_L___", 'L');
    CountFive("_L___", 'l');
    assert HintAfter(g, a, 1) == "lL___";
  }

  /**
   * A fixed vector with a repeated letter, traced by hand: the second L is
   * exact, the first gets the remaining lower-case marker, and only the
   * first A is marked because ALLOY holds one A.
   */
  lemma LlamaVector()
    ensures Generate("LLAMA", "ALLOY") == "lLa__"
  {
    var g, a := "LLAMA", "ALLOY";
    LlamaFirstSteps();
    CountFive(a, 'A');
    assert HintAfter(g, a, 3) == "lLa__" by {
      CountFive("lL___", 'A');
      CountFive("lL___", 'a');
    }
    assert HintAfter(g, a, 4) == "lLa__" by {
      assert 'M' !in a;
    }
    CountFive("lLa__", 'A');
    CountFive("lLa__", 'a');
  }
}
