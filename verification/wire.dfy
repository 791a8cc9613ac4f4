/**
 * The literal texts both programs put on the wire. Each program spells them
 * out on its own; they are gathered here so that the two sides of the model
 * agree by construction.
 */
module Wire {
  import opened Text

  /**
   * The length of every word in play: the target words, the guesses the
   * client lets through, and the slots of every hint.
   */
  const WordLength: nat := 5

  /** The ten octets "START GAME" in ASCII, the handshake marker. */
  const StartMarker: seq<byte> := [83, 84, 65, 82, 84, 32, 71, 65, 77, 69]

  /** The placeholder hint that opens every game. */
  const OpeningHint: string := "_____"

  const InvalidGuess: string := "INVALID GUESS\n"

  const GameOver: string := "GAME OVER\n"

  /** The marker is the ASCII spelling of "START GAME". */
  lemma StartMarkerSpellsStartGame()
    ensures |StartMarker| == |"START GAME"|
    ensures forall i :: 0 <= i < |StartMarker| ==> StartMarker[i] == "START GAME"[i] as int
  {
  }

  /** The game-over text carries no digit. */
  lemma GameOverHasNoDigit()
    ensures HasNoDigit(GameOver)
  {
  }
}
