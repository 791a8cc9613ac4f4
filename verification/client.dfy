/**
 * The client side (client.py): the handshake it sends, the split of the
 * opening message, the validation loop that screens typed guesses, the
 * digit filter applied to each reply, and the three-way integrity verdict.
 */
module Client {
  import opened Text
  import opened Wrappers
  import opened Wire

  /** The handshake: the marker, then the raw key octets. */
  function ComposeHandshake(key: seq<byte>): (message: seq<byte>)
    ensures |message| == |StartMarker| + |key|
    ensures message[..|StartMarker|] == StartMarker && message[|StartMarker|..] == key
  {
    StartMarker + key
  }

  /** The opening message cut at index five: the placeholder part and the digest part. */
  datatype SplitMessage = SplitMessage(hint: string, digest: string)

  function SplitOpening(message: string): (o: SplitMessage)
    ensures o.hint + o.digest == message
    ensures |o.hint| == if |message| < |OpeningHint| then |message| else |OpeningHint|
  {
    var cut := if |message| < |OpeningHint| then |message| else |OpeningHint|;
    SplitMessage(message[..cut], message[cut..])
  }

  /** The client plays only when the opening starts with the placeholder hint. */
  predicate EntersGame(message: string)
  {
    SplitOpening(message).hint == OpeningHint
  }

  /** Why a typed guess is refused, in the order the checks are made. */
  datatype Problem = NotAlphabetic | TooShort | TooLong

  datatype Validation = Valid(guess: string) | Invalid(problem: Problem)

  /** The prompt's check: letters first, then the length. */
  function Validate(input: string): (v: Validation)
    ensures v.Valid? <==> IsAlpha(input) && |input| == WordLength
    ensures v.Valid? ==> v.guess == input
    ensures v == Invalid(NotAlphabetic) <==> !IsAlpha(input)
    ensures v == Invalid(TooShort) <==> IsAlpha(input) && |input| < WordLength
    ensures v == Invalid(TooLong) <==> IsAlpha(input) && |input| > WordLength
  {
    if !IsAlpha(input) then Invalid(NotAlphabetic)
    else if |input| < WordLength then Invalid(TooShort)
    else if |input| > WordLength then Invalid(TooLong)
    else Valid(input)
  }

  /**
   * The prompt loop: reads lines until one passes `Validate`. Returns that
   * line and how many lines were read, or `None` when the input runs out.
   */
  method PromptForGuess(inputs: seq<string>) returns (guess: Option<string>, read: nat)
    ensures read <= |inputs|
    ensures forall j :: 0 <= j < read - (if guess.Some? then 1 else 0) ==> Validate(inputs[j]).Invalid?
    ensures guess.Some? ==> read >= 1 && guess.value == inputs[read - 1] && Validate(guess.value).Valid?
    ensures guess.None? ==> read == |inputs|
  {
    read := 0;
    while read < |inputs|
      invariant read <= |inputs|
      invariant forall j :: 0 <= j < read ==> Validate(inputs[j]).Invalid?
    {
      var input := inputs[read];
      read := read + 1;
      if Validate(input).Valid? {
        return Some(input), read;
      }
    }
    return None, read;
  }

  /** Whether the digest of the upper-cased guess is the committed one. */
  predicate Matches(digest: string -> string, guess: string, committed: string)
  {
    digest(ToUpper(guess)) == committed
  }

  /** What the client makes of a reply, given whether its guess matched the commitment. */
  datatype Verdict = CheatingDetected | Won(score: string, message: string) | Shown(response: string)

  function Judge(response: string, matched: bool): (v: Verdict)
    ensures v.CheatingDetected? <==> matched && |Digits(response)| == 0
    ensures v.Won? <==> matched && |Digits(response)| > 0
    ensures v.Won? ==> v.score == Digits(response) && v.message == response[|v.score|..]
    ensures v.Shown? ==> v.response == response
  {
    var score := Digits(response);
    if |score| == 0 && matched then CheatingDetected
    else if |score| > 0 && matched then Won(score, response[|score|..])
    else Shown(response)
  }

  /** The game loop's flag and whether the connection is still open. */
  datatype LoopState = LoopState(active: bool, connected: bool)

  /** The next round sends a guess: the loop must still run and the connection be open. */
  predicate CanPlayRound(s: LoopState) { s.active && s.connected }

  /**
   * The loop state after a verdict, as the source has it: on detected
   * cheating the connection is closed but the loop flag stays set.
   */
  function AfterVerdictAsWritten(s: LoopState, v: Verdict): (s': LoopState)
    ensures v.CheatingDetected? ==> !s'.connected && s'.active == s.active
    ensures v.Won? ==> !s'.active && s'.connected == s.connected
    ensures v.Shown? ==> s' == s
  {
    match v
    case CheatingDetected => LoopState(s.active, false)
    case Won(_, _) => LoopState(false, s.connected)
    case Shown(_) => s
  }

  /** The loop state after a verdict, with detected cheating also ending the loop. */
  function AfterVerdict(s: LoopState, v: Verdict): (s': LoopState)
    ensures (s.active ==> s.connected) ==> (s'.active ==> s'.connected)
    ensures s'.active <==> s.active && v.Shown?
  {
    match v
    case CheatingDetected => LoopState(false, false)
    case Won(_, _) => LoopState(false, s.connected)
    case Shown(_) => s
  }

  /** As written, detecting cheating leaves a running loop over a closed connection. */
  lemma CheatingLeavesLoopRunning()
    ensures var s := AfterVerdictAsWritten(LoopState(true, true), CheatingDetected);
      s.active && !s.connected && !CanPlayRound(s)
  {
  }

  /** With the correction, any round the loop goes on to has an open connection. */
  lemma {:induction false} CorrectedLoopKeepsConnection(s: LoopState, verdicts: seq<Verdict>)
    requires CanPlayRound(s)
    ensures var s' := RunVerdicts(s, verdicts); s'.active ==> CanPlayRound(s')
    decreases |verdicts|
  {
    if |verdicts| > 0 && s.active {
      var next := AfterVerdict(s, verdicts[0]);
      if next.active {
        CorrectedLoopKeepsConnection(next, verdicts[1..]);
      }
    }
  }

  /** The loop state after a run of verdicts, stopping once the loop ends. */
  function RunVerdicts(s: LoopState, verdicts: seq<Verdict>): LoopState
    decreases |verdicts|
  {
    if |verdicts| == 0 || !s.active then s else RunVerdicts(AfterVerdict(s, verdicts[0]), verdicts[1..])
  }
}
