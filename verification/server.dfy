/**
 * The server side (server.py): the handshake check in the accept loop and
 * one game session, `wordle_game_server`, as a fold over the guesses the
 * session receives. The selected word and the text of the guess list are
 * parameters; the digest is a function parameter standing for SHA3-256.
 */
module Server {
  import opened Text
  import opened Wrappers
  import opened Wire
  import Hint

  /**
   * The accept loop's check: the first ten octets must be the marker, and
   * everything after them is the session key. A shorter message has a
   * shorter prefix, which cannot equal the marker.
   */
  function ParseHandshake(message: seq<byte>): (key: Option<seq<byte>>)
    ensures key.Some? <==> |message| >= |StartMarker| && message[..|StartMarker|] == StartMarker
    ensures key.Some? ==> message == StartMarker + key.value
  {
    if |message| >= |StartMarker| && message[..|StartMarker|] == StartMarker
    then Some(message[|StartMarker|..])
    else None
  }

  /** The first message of a game: the placeholder hint followed by the digest of the word. */
  function Opening(digest: string -> string, word: string): (m: string)
    ensures |m| >= |OpeningHint| && m[..|OpeningHint|] == OpeningHint && m[|OpeningHint|..] == digest(word)
  {
    OpeningHint + digest(word)
  }

  /** The session's mutable part: how many accepted guesses so far, and whether play goes on. */
  datatype Session = Session(count: nat, active: bool)

  const Start := Session(0, true)

  /**
   * What one received guess does: a reply and the next state, or `Fault`
   * when the hint computation raises (an accepted, non-winning guess longer
   * than the five-slot hint), which ends the session's thread.
   */
  datatype Step = Reply(text: string, next: Session) | Fault

  /** The server's only check: the upper-cased guess occurs somewhere in the raw list text. */
  predicate Accepted(guessList: string, received: string)
  {
    IsSubstring(ToUpper(received), guessList)
  }

  /** An accepted guess that is the selected word. */
  predicate Wins(word: string, guessList: string, received: string)
  {
    Accepted(guessList, received) && ToUpper(received) == word
  }

  /** One turn of the receive loop, for a session still in play. */
  function Respond(word: string, guessList: string, s: Session, received: string): (step: Step)
    requires |word| == WordLength && s.active
    ensures step.Fault? <==> Accepted(guessList, received) && !Wins(word, guessList, received) && |received| > WordLength
    ensures step.Reply? ==> step.next.count == s.count + (if Accepted(guessList, received) then 1 else 0)
    ensures step.Reply? ==> (step.next.active <==> !Wins(word, guessList, received))
    ensures step.Reply? && !Accepted(guessList, received) ==> step.text == InvalidGuess && step.next == s
    ensures step.Reply? && !step.next.active ==>
              step.next.count >= 1 && step.text == NatToString(step.next.count) + GameOver
    ensures step.Reply? && Accepted(guessList, received) && step.next.active ==>
              step.text == Hint.Generate(ToUpper(received), word) + "\n"
  {
    var guess := ToUpper(received);
    if IsSubstring(guess, guessList) then
      var count := s.count + 1;
      if guess == word then Reply(NatToString(count) + GameOver, Session(count, false))
      else if |guess| <= WordLength then Reply(Hint.Generate(guess, word) + "\n", Session(count, true))
      else Fault
    else Reply(InvalidGuess, s)
  }

  /** The replies sent, the state reached, and whether the session died on a fault. */
  datatype Transcript = Transcript(replies: seq<string>, final: Session, faulted: bool)

  /** The receive loop run over a sequence of guesses; it stops on a win, a fault, or when input ends. */
  function Play(word: string, guessList: string, s: Session, received: seq<string>): (t: Transcript)
    requires |word| == WordLength
    ensures |t.replies| <= |received|
    ensures !s.active ==> t == Transcript([], s, false)
    decreases |received|
  {
    if !s.active || |received| == 0 then Transcript([], s, false)
    else match Respond(word, guessList, s, received[0])
      case Fault => Transcript([], s, true)
      case Reply(text, next) =>
        var rest := Play(word, guessList, next, received[1..]);
        Transcript([text] + rest.replies, rest.final, rest.faulted)
  }

  /** Every message the session sends: the opening, then one reply per guess consumed. */
  function Messages(digest: string -> string, word: string, guessList: string, received: seq<string>): (ms: seq<string>)
    requires |word| == WordLength
    ensures 1 <= |ms| <= |received| + 1
    ensures |ms[0]| >= |OpeningHint| && ms[0][..|OpeningHint|] == OpeningHint && ms[0][|OpeningHint|..] == digest(word)
  {
    [Opening(digest, word)] + Play(word, guessList, Start, received).replies
  }

  /**
   * The digest is computed once, for the opening: two sessions that differ
   * only in the digest send the same replies afterwards, and their openings
   * differ exactly when the committed digests do.
   */
  lemma MessagesShareReplies(d1: string -> string, d2: string -> string, word: string, guessList: string,
                             received: seq<string>)
    requires |word| == WordLength
    ensures Messages(d1, word, guessList, received)[1..] == Messages(d2, word, guessList, received)[1..]
    ensures Messages(d1, word, guessList, received)[0] == Messages(d2, word, guessList, received)[0]
        <==> d1(word) == d2(word)
  {
    var m1 := Opening(d1, word);
    var m2 := Opening(d2, word);
    if m1 == m2 {
      assert m1[|OpeningHint|..] == m2[|OpeningHint|..];
    }
  }

  /** How many of the guesses the server accepts. */
  function AcceptedCount(guessList: string, received: seq<string>): nat
  {
    if |received| == 0 then 0
    else AcceptedCount(guessList, received[..|received| - 1])
         + (if Accepted(guessList, received[|received| - 1]) then 1 else 0)
  }

  lemma {:induction false} AcceptedCountCons(guessList: string, r: string, rest: seq<string>)
    ensures AcceptedCount(guessList, [r] + rest)
         == (if Accepted(guessList, r) then 1 else 0) + AcceptedCount(guessList, rest)
    decreases |rest|
  {
    if |rest| > 0 {
      var front := rest[..|rest| - 1];
      assert ([r] + rest)[..|rest|] == [r] + front;
      AcceptedCountCons(guessList, r, front);
    } else {
      assert ([r] + rest)[..0] == [];
    }
  }

  /**
   * The counter: every guess consumed without a fault adds one exactly
   * when the server accepted it; rejected guesses leave it alone.
   */
  lemma {:induction false} PlayCounts(word: string, guessList: string, s: Session, received: seq<string>)
    requires |word| == WordLength
    ensures var t := Play(word, guessList, s, received);
      !t.faulted ==> t.final.count == s.count + AcceptedCount(guessList, received[..|t.replies|])
    decreases |received|
  {
    var t := Play(word, guessList, s, received);
    if s.active && |received| > 0 {
      match Respond(word, guessList, s, received[0])
      case Fault =>
      case Reply(text, next) =>
        PlayCounts(word, guessList, next, received[1..]);
        var rest := Play(word, guessList, next, received[1..]);
        assert received[..|t.replies|] == [received[0]] + received[1..][..|rest.replies|];
        AcceptedCountCons(guessList, received[0], received[1..][..|rest.replies|]);
    } else {
      assert received[..0] == [];
    }
  }

  /**
   * When the session stops: it is still in play after the last guess
   * exactly when no guess wins; otherwise it stops right after the first
   * winning guess, whose reply is the final count followed by the game-over
   * text.
   */
  lemma {:induction false} PlayStops(word: string, guessList: string, s: Session, received: seq<string>)
    requires |word| == WordLength && s.active
    ensures var t := Play(word, guessList, s, received);
      !t.faulted ==>
        && (t.final.active <==> forall j :: 0 <= j < |received| ==> !Wins(word, guessList, received[j]))
        && (t.final.active ==> |t.replies| == |received|)
        && (!t.final.active ==>
              && |t.replies| >= 1
              && Wins(word, guessList, received[|t.replies| - 1])
              && (forall j :: 0 <= j < |t.replies| - 1 ==> !Wins(word, guessList, received[j]))
              && t.final.count >= 1
              && t.replies[|t.replies| - 1] == NatToString(t.final.count) + GameOver)
    decreases |received|
  {
    if |received| > 0 {
      match Respond(word, guessList, s, received[0])
      case Fault =>
      case Reply(text, next) =>
        if next.active {
          PlayStops(word, guessList, next, received[1..]);
          var t := Play(word, guessList, s, received);
          var rest := Play(word, guessList, next, received[1..]);
          assert t.replies == [text] + rest.replies;
          forall j | 1 <= j < |received|
            ensures received[j] == received[1..][j - 1]
          {
          }
        }
    }
  }

  /** A session faults only on an accepted guess longer than five characters. */
  lemma {:induction false} ShortGuessesNeverFault(word: string, guessList: string, s: Session, received: seq<string>)
    requires |word| == WordLength
    requires forall j :: 0 <= j < |received| && Accepted(guessList, received[j]) ==> |received[j]| <= WordLength
    ensures !Play(word, guessList, s, received).faulted
    decreases |received|
  {
    if s.active && |received| > 0 {
      match Respond(word, guessList, s, received[0])
      case Fault =>
      case Reply(text, next) =>
        forall j | 0 <= j < |received| - 1 && Accepted(guessList, received[1..][j])
          ensures |received[1..][j]| <= WordLength
        {
          assert received[1..][j] == received[j + 1];
        }
        ShortGuessesNeverFault(word, guessList, next, received[1..]);
    }
  }

  /** Three rejected guesses and then an accepted one leave the counter at one. */
  lemma ThreeRejectedThenOne(word: string, guessList: string, r1: string, r2: string, r3: string, a: string)
    requires |word| == WordLength
    requires !Accepted(guessList, r1) && !Accepted(guessList, r2) && !Accepted(guessList, r3)
    requires Accepted(guessList, a) && |a| <= WordLength
    ensures Play(word, guessList, Start, [r1, r2, r3, a]).final.count == 1
  {
    var t := Play(word, guessList, Start, [r1, r2, r3, a]);
    ShortGuessesNeverFault(word, guessList, Start, [r1, r2, r3, a]);
    PlayCounts(word, guessList, Start, [r1, r2, r3, a]);
    var consumed := [r1, r2, r3, a][..|t.replies|];
    PlayStops(word, guessList, Start, [r1, r2, r3, a]);
    assert |t.replies| == 4 by {
      if t.final.active {
      } else {
        assert forall j :: 0 <= j < 3 ==> !Wins(word, guessList, [r1, r2, r3, a][j]);
      }
    }
    assert consumed == [r1, r2, r3, a];
    AcceptedCountCons(guessList, a, []);
    AcceptedCountCons(guessList, r3, [a]);
    AcceptedCountCons(guessList, r2, [r3, a]);
    AcceptedCountCons(guessList, r1, [r2, r3, a]);
    assert [r1] + [r2, r3, a] == consumed && [r2] + [r3, a] == [r2, r3, a] && [r3] + [a] == [r3, a] && [a] + [] == [a];
  }

  /**
   * Acceptance is containment in the raw list text, not membership in a set
   * of words: the empty guess is contained in any text, so it is counted and
   * answered with an all-blank hint.
   */
  lemma {:induction false} EmptyGuessIsCounted(word: string, guessList: string, s: Session)
    requires |word| == WordLength && s.active
    ensures Respond(word, guessList, s, "") == Reply(OpeningHint + "\n", Session(s.count + 1, true))
  {
    assert OccursAt("", guessList, 0);
    assert ToUpper("") == "";
    var h := Hint.Generate("", word);
    assert h == OpeningHint;
  }

  /** A two-guess game: a hint for an accepted miss, then the win on the second accepted guess. */
  lemma {:induction false} MissThenWin(word: string, guessList: string, miss: string, hit: string)
    requires |word| == WordLength && |miss| <= WordLength
    requires Accepted(guessList, miss) && ToUpper(miss) != word && Wins(word, guessList, hit)
    ensures Play(word, guessList, Start, [miss, hit])
         == Transcript([Hint.Generate(ToUpper(miss), word) + "\n", NatToString(2) + GameOver], Session(2, false), false)
  {
    var first := Respond(word, guessList, Start, miss);
    assert first == Reply(Hint.Generate(ToUpper(miss), word) + "\n", Session(1, true));
    var second := Respond(word, guessList, Session(1, true), hit);
    assert second == Reply(NatToString(2) + GameOver, Session(2, false));
    assert [miss, hit][1..] == [hit] && [hit][1..] == [];
  }

  /** The game on CRANE: guessing SLATE then CRANE gives a hint and then the win in two. */
  lemma {:induction false} CraneGame(guessList: string)
    requires IsSubstring("SLATE", guessList) && IsSubstring("CRANE", guessList)
    ensures Play("CRANE", guessList, Start, ["SLATE", "CRANE"])
         == Transcript(["__A_E\n", "2" + GameOver], Session(2, false), false)
  {
    UpperCaseUnchanged("SLATE");
    UpperCaseUnchanged("CRANE");
    MissThenWin("CRANE", guessList, "SLATE", "CRANE");
    var hint := Hint.Generate(ToUpper("SLATE"), "CRANE");
    assert hint == "__A_E" by {
      Hint.SlateVector();
    }
    var score := NatToString(2);
    assert score == "2" by {
      assert DigitChar(2) == '2';
    }
    assert hint + "\n" == "__A_E\n";
  }
}
