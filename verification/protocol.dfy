/**
 * Properties that span both programs: the handshake and the opening
 * message parse back to what was sent, the client reads the server's
 * game-over reply as a win with the right score, an honest server is never
 * accused, and a server that swaps its word after committing is caught.
 * The digest stands for SHA3-256 and is assumed injective only where a
 * property says so.
 */
module Protocol {
  import opened Text
  import opened Wrappers
  import opened Wire
  import Hint
  import Server
  import Client

  /** Distinct words have distinct digests. */
  ghost predicate Injective(digest: string -> string)
  {
    forall a, b :: digest(a) == digest(b) ==> a == b
  }

  /** With an injective digest, a guess matches the commitment exactly when its upper-cased form is the committed word. */
  lemma MatchesIffCommittedWord(digest: string -> string, guess: string, word: string)
    requires Injective(digest)
    ensures Client.Matches(digest, guess, digest(word)) <==> ToUpper(guess) == word
  {
  }

  /** The server recovers exactly the key the client appended to the marker. */
  lemma HandshakeRoundTrip(key: seq<byte>)
    ensures Server.ParseHandshake(Client.ComposeHandshake(key)) == Some(key)
  {
    var m := Client.ComposeHandshake(key);
    assert m[..|StartMarker|] == StartMarker;
  }

  /** The server starts a game exactly for messages the client's composition can produce. */
  lemma HandshakeAcceptsOnlyComposed(message: seq<byte>)
    ensures Server.ParseHandshake(message).Some? <==> exists key :: message == Client.ComposeHandshake(key)
  {
    if exists key :: message == Client.ComposeHandshake(key) {
      var key :| message == Client.ComposeHandshake(key);
      HandshakeRoundTrip(key);
    }
    var parsed := Server.ParseHandshake(message);
    if parsed.Some? {
      assert message == Client.ComposeHandshake(parsed.value);
    }
  }

  /** The client splits the opening into the placeholder and the committed digest, and plays. */
  lemma OpeningRoundTrip(digest: string -> string, word: string)
    ensures Client.SplitOpening(Server.Opening(digest, word)) == Client.SplitMessage(OpeningHint, digest(word))
    ensures Client.EntersGame(Server.Opening(digest, word))
  {
  }

  /** The client plays exactly when the opening begins with the placeholder hint. */
  lemma EntersGameIffPlaceholder(message: string)
    ensures Client.EntersGame(message) <==> |message| >= |OpeningHint| && message[..|OpeningHint|] == OpeningHint
  {
  }

  /** The digit filter of a game-over reply gives back exactly the rendered count. */
  lemma WinReplyDigits(n: nat)
    ensures Digits(NatToString(n) + GameOver) == NatToString(n)
  {
    GameOverHasNoDigit();
    DigitsThenText(NatToString(n), GameOver);
  }

  /** A game-over reply reads as a win whose score is the server's count and whose rest is the game-over text. */
  lemma WinReplyParses(n: nat)
    ensures Digits(NatToString(n) + GameOver) == NatToString(n)
    ensures Client.Judge(NatToString(n) + GameOver, true) == Client.Won(NatToString(n), GameOver)
  {
    var reply := NatToString(n) + GameOver;
    WinReplyDigits(n);
    assert reply[|NatToString(n)|..] == GameOver;
  }

  /**
   * For a guess that passed the client's check, every reply other than the
   * game-over one carries no digit.
   */
  lemma {:induction false} NonWinningReplyHasNoDigit(word: string, guessList: string, s: Server.Session, guess: string)
    requires |word| == WordLength && s.active
    requires Client.Validate(guess).Valid?
    requires !Server.Wins(word, guessList, guess)
    ensures Server.Respond(word, guessList, s, guess).Reply?
    ensures HasNoDigit(Server.Respond(word, guessList, s, guess).text)
  {
    var step := Server.Respond(word, guessList, s, guess);
    if Server.Accepted(guessList, guess) {
      var g := ToUpper(guess);
      Hint.HintOfLettersHasNoDigit(g, word);
      var hint := Hint.Generate(g, word);
      assert step.text == hint + "\n";
      assert forall i :: 0 <= i < |step.text| ==> step.text[i] == if i < |hint| then hint[i] else '\n';
    }
  }

  /**
   * One honest round: when the committed digest is the digest of the word
   * the server plays, the word is in the guess list and digests are
   * injective, a checked guess that is the word is read as a win with the
   * server's count, and any other checked guess is simply shown.
   */
  lemma {:induction false} HonestRound(digest: string -> string, word: string, guessList: string, s: Server.Session, guess: string)
    requires Injective(digest)
    requires |word| == WordLength && s.active && IsSubstring(word, guessList)
    requires Client.Validate(guess).Valid?
    ensures Server.Respond(word, guessList, s, guess).Reply?
    ensures var step := Server.Respond(word, guessList, s, guess);
      var verdict := Client.Judge(step.text, Client.Matches(digest, guess, digest(word)));
      && (ToUpper(guess) == word ==> verdict == Client.Won(NatToString(s.count + 1), GameOver))
      && (ToUpper(guess) != word ==> verdict == Client.Shown(step.text))
  {
    var step := Server.Respond(word, guessList, s, guess);
    var matched := Client.Matches(digest, guess, digest(word));
    if ToUpper(guess) == word {
      assert Server.Wins(word, guessList, guess);
      assert step.text == NatToString(s.count + 1) + GameOver;
      assert matched;
      WinReplyParses(s.count + 1);
    } else {
      assert !matched;
      NonWinningReplyHasNoDigit(word, guessList, s, guess);
    }
  }

  /**
   * The anti-cheat check: if the server committed to `committed` but plays
   * a different word, a checked guess of the committed word is flagged,
   * whether the server rejects the guess or sends a hint for it.
   */
  lemma {:induction false} SwappedWordIsDetected(digest: string -> string, committed: string, played: string,
                              guessList: string, s: Server.Session, guess: string)
    requires |played| == WordLength && s.active && played != committed
    requires Client.Validate(guess).Valid? && ToUpper(guess) == committed
    ensures Server.Respond(played, guessList, s, guess).Reply?
    ensures Client.Judge(Server.Respond(played, guessList, s, guess).text,
                         Client.Matches(digest, guess, digest(committed))) == Client.CheatingDetected
  {
    NonWinningReplyHasNoDigit(played, guessList, s, guess);
    DigitsOfNoDigit(Server.Respond(played, guessList, s, guess).text);
  }

  /** The integrity scenario: commitment to CRANE, game played on GRAPE, guess CRANE. */
  lemma CraneGrapeScenario(digest: string -> string, guessList: string)
    ensures Client.Judge(Server.Respond("GRAPE", guessList, Server.Start, "CRANE").text,
                         Client.Matches(digest, "CRANE", digest("CRANE"))) == Client.CheatingDetected
  {
    assert ToUpper("CRANE") == "CRANE";
    SwappedWordIsDetected(digest, "CRANE", "GRAPE", guessList, Server.Start, "CRANE");
  }

  /**
   * The honest-server assumption needs the word in the guess list: an
   * honest server whose word is missing from that list rejects the right
   * guess, and the client reports cheating.
   */
  lemma {:induction false} WordOutsideListLooksLikeCheating(digest: string -> string, word: string, guessList: string,
                                         s: Server.Session, guess: string)
    requires |word| == WordLength && s.active && !IsSubstring(word, guessList)
    requires Client.Validate(guess).Valid? && ToUpper(guess) == word
    ensures Client.Judge(Server.Respond(word, guessList, s, guess).text,
                         Client.Matches(digest, guess, digest(word))) == Client.CheatingDetected
  {
    var step := Server.Respond(word, guessList, s, guess);
    assert step.text == InvalidGuess;
    DigitsOfNoDigit(InvalidGuess);
    assert Client.Matches(digest, guess, digest(word));
  }

  /** The client's verdict on each reply, paired with the guess that drew it. */
  function Verdicts(digest: string -> string, committed: string, replies: seq<string>, guesses: seq<string>)
    : (vs: seq<Client.Verdict>)
    requires |replies| <= |guesses|
    ensures |vs| == |replies|
  {
    if |replies| == 0 then []
    else [Client.Judge(replies[0], Client.Matches(digest, guesses[0], committed))]
         + Verdicts(digest, committed, replies[1..], guesses[1..])
  }

  /** A whole honest game: no reply to a checked guess is ever read as cheating. */
  lemma {:induction false} HonestGameNeverAccuses(digest: string -> string, word: string, guessList: string,
                                                  s: Server.Session, guesses: seq<string>)
    requires Injective(digest)
    requires |word| == WordLength && s.active && IsSubstring(word, guessList)
    requires forall j :: 0 <= j < |guesses| ==> Client.Validate(guesses[j]).Valid?
    ensures Client.CheatingDetected !in
      Verdicts(digest, digest(word), Server.Play(word, guessList, s, guesses).replies, guesses)
    decreases |guesses|
  {
    var t := Server.Play(word, guessList, s, guesses);
    if |guesses| > 0 {
      HonestRound(digest, word, guessList, s, guesses[0]);
      var step := Server.Respond(word, guessList, s, guesses[0]);
      var rest := Server.Play(word, guessList, step.next, guesses[1..]);
      assert t.replies == [step.text] + rest.replies;
      assert t.replies[1..] == rest.replies;
      if step.next.active {
        forall j | 0 <= j < |guesses| - 1
          ensures Client.Validate(guesses[1..][j]).Valid?
        {
          assert guesses[1..][j] == guesses[j + 1];
        }
        HonestGameNeverAccuses(digest, word, guessList, step.next, guesses[1..]);
      }
    }
  }

  /**
   * A whole honest game that ends is read as a win whose score is the
   * number of guesses the server accepted.
   */
  lemma {:induction false} HonestGameScore(digest: string -> string, word: string, guessList: string,
                                           guesses: seq<string>)
    requires |word| == WordLength
    requires forall j :: 0 <= j < |guesses| ==> Client.Validate(guesses[j]).Valid?
    ensures var t := Server.Play(word, guessList, Server.Start, guesses);
      !t.faulted && (!t.final.active ==>
        Client.Judge(t.replies[|t.replies| - 1], Client.Matches(digest, guesses[|t.replies| - 1], digest(word)))
        == Client.Won(NatToString(Server.AcceptedCount(guessList, guesses[..|t.replies|])), GameOver))
  {
    var t := Server.Play(word, guessList, Server.Start, guesses);
    assert !t.faulted by {
      Server.ShortGuessesNeverFault(word, guessList, Server.Start, guesses);
    }
    assert t.final.count == Server.AcceptedCount(guessList, guesses[..|t.replies|]) by {
      Server.PlayCounts(word, guessList, Server.Start, guesses);
    }
    if !t.final.active {
      var last := |t.replies| - 1;
      assert last >= 0 && Server.Wins(word, guessList, guesses[last])
          && t.replies[last] == NatToString(t.final.count) + GameOver by {
        Server.PlayStops(word, guessList, Server.Start, guesses);
      }
      WinnerIsJudgedWon(digest, word, guessList, guesses[last], t.final.count);
    }
  }

  /** The client reads the game-over reply to a winning guess as a win scored by the count. */
  lemma WinnerIsJudgedWon(digest: string -> string, word: string, guessList: string, guess: string, count: nat)
    requires Server.Wins(word, guessList, guess)
    ensures Client.Judge(NatToString(count) + GameOver, Client.Matches(digest, guess, digest(word)))
         == Client.Won(NatToString(count), GameOver)
  {
    assert Client.Matches(digest, guess, digest(word));
    WinReplyParses(count);
  }
}
