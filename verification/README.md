# Wordle over a secured channel — a Dafny model

The system is a two-program Wordle game. The server (`server.py`) picks a
five-letter word, commits to it by sending its SHA3-256 digest, and then
answers guesses until one matches. The client (`client.py`) screens what the
player types, sends each guess, and checks the server's honesty: if the digest
of its own guess equals the committed digest, the server must declare a win.

This project models the logic of both programs:

- **Hint computation** (`Hint`): `hint_generator`'s two passes over a guess
  and the answer. The first pass marks exact matches in upper case. The second
  pass, in position order, marks a misplaced letter in lower case while the
  markers for that letter stay below its count in the answer. The proofs
  characterise every upper-case-letter slot without the loops (`HintReference`). They also show
  that an upper-case letter gets exactly min(count in guess, count in answer)
  markers (`LetterMarkers`).
- **Server session** (`Server`): one game as a fold over the received
  guesses. The selected word and the raw text of the guess list are
  parameters. A guess is accepted when its upper-cased form occurs anywhere in
  that text; this is contiguous containment, so even the empty guess is
  accepted. Each accepted guess adds one to the counter. The winning guess
  ends the session with `<count>GAME OVER\n`. Any other accepted guess gets
  its hint and a newline, and a rejected guess gets `INVALID GUESS\n`. An
  accepted, non-winning guess longer than five characters makes
  `hint_generator` raise. The model calls that outcome `Fault`: the session
  ends without a reply.
- **Handshake** (`Server.ParseHandshake`, `Client.ComposeHandshake`): the
  ten octets `START GAME` followed by the key octets.
- **Client logic** (`Client`): the order of the input checks, the prompt
  loop, the split of the opening message at index five, the digit filter on
  replies, the three-way verdict, and the game loop's flag.
- **Cross-program properties** (`Protocol`): the handshake and the opening
  round-trip. An honest server whose word occurs in the guess-list text is
  never accused of cheating, provided the digest is injective. Its final reply
  reads as a win whose score is the number of accepted guesses. A server that
  plays a different word from the one it committed to is caught when the
  player guesses the committed word; other guesses cannot reveal the swap.

The digest is a function parameter `string -> string` standing for SHA3-256.
Its injectivity is assumed, as the predicate `Protocol.Injective`, only where
a property needs it. Encryption is taken as the identity: every message is
modelled as its plaintext.

Three behaviours of the code are worth stating up front:

- SLATE against CRANE gives `__A_E` (`Hint.SlateVector`): the A is in place,
  the E is in place, and no other letter of SLATE occurs in CRANE.
- The server's only check on a guess is substring containment in the raw
  text of the guess-list file (server.py:76). There is no split into words.
- On detected cheating the client closes the connection but does not clear
  the loop flag (client.py:94-96), although its own comment at
  client.py:89-90 says the game is terminated; see Findings.

## Model

| member | source | states |
|---|---|---|
| Hint.Generate | server.py:19-40 | The hint has five slots. Slots past the guess are blank. An exact match shows the letter upper-cased. A non-exact slot is blank or the letter lower-cased. A letter absent from the answer always gets a blank. |
| Hint.HintAfter | server.py:32-39 | After the first loop and k steps of the second: exact slots hold the upper-cased letter, slots not yet visited are still blank, and visited non-exact slots are blank or a lower-case marker for a letter in the answer. |
| Hint.ExactIffUpper | server.py:33-39 | For a letter of the guess, the slot shows it in upper case if and only if the letter is in place. The second pass never overwrites an exact slot. |
| Hint.WinningGuessHint | server.py:33-35 | A guess equal to the answer gets all exact markers: the answer upper-cased. |
| Hint.HintOfLettersHasNoDigit | server.py:32-40 | The hint of an all-letter guess contains no decimal digit. |
| Hint.MarkersAfter | server.py:36-39 | After k steps, the markers for an upper-case letter equal its exact hits plus the misplaced occurrences seen so far, capped at its count in the answer. |
| Hint.HintReference | server.py:32-40 | Reference definition of each slot, without the loops. An exact match shows the letter. A misplaced letter shows in lower case exactly when its exact hits plus its misplaced occurrences to the left are below its count in the answer. Otherwise the slot is blank. |
| Hint.LetterMarkers | server.py:36-39 | Frequency cap, with equality: an upper-case letter receives exactly min(count in answer, count in guess) markers, upper and lower case together. |
| Hint.SlateVector | server.py:19-40 | Fixed vector: SLATE against CRANE gives `__A_E`. |
| Hint.LlamaVector | server.py:19-40 | Fixed vector with repeated letters: LLAMA against ALLOY gives `lLa__`. |
| Server.ParseHandshake | server.py:129-136 | A game starts exactly when the first ten octets are `START GAME`. The key is everything after them, so the message is the marker followed by the key. Any other message, including a shorter one, starts no game. |
| Server.Opening | server.py:65-67 | The first message is the five-underscore placeholder followed by the digest of the selected word. |
| Server.Respond | server.py:71-89 | One turn. The counter goes up by one exactly for an accepted guess. A rejected guess gets `INVALID GUESS\n` and leaves the state unchanged. The session ends exactly on an accepted guess equal to the word, replying with the new count (at least 1) and `GAME OVER\n`. Any other accepted guess gets its hint and a newline. A fault happens exactly on an accepted, non-winning guess longer than five characters. |
| Server.Play | server.py:69-89 | The receive loop never produces more replies than guesses received, and once the game is over it consumes nothing more. |
| Server.Messages | server.py:62-89 | The session sends the opening first, the placeholder followed by the digest of the word (server.py:67), and after it at most one reply per guess received (server.py:81, 86, 89). |
| Server.MessagesShareReplies | server.py:62-89 | The digest is computed once, for the opening: two sessions that differ only in the digest send identical replies after the opening, and their openings differ exactly when the committed digests differ. |
| Server.PlayCounts | server.py:76-78 | Over any run without a fault, the final counter is the initial one plus the number of accepted guesses among those consumed. |
| Server.PlayStops | server.py:70-82 | Without a fault, the session stays in play exactly when no guess wins. Otherwise it stops right after the first winning guess, whose reply is the final count (at least 1) followed by `GAME OVER\n`. |
| Server.ShortGuessesNeverFault | server.py:83-86 | If every accepted guess has at most five characters, the session never faults. |
| Server.ThreeRejectedThenOne | server.py:73-89 | Three rejected guesses followed by one accepted guess leave the counter at 1. |
| Server.EmptyGuessIsCounted | server.py:76-86 | The empty guess is contained in any list text. It is counted and answered with an all-blank hint. |
| Server.MissThenWin | server.py:73-86 | An accepted miss of at most five characters followed by a winning guess gives the miss's hint with a newline, then `2GAME OVER\n`. The session ends with counter 2. |
| Server.CraneGame | server.py:73-86 | With SLATE and CRANE in the list and CRANE the word, guessing SLATE then CRANE gives replies `__A_E\n` and `2GAME OVER\n`, ending with counter 2. |
| Client.ComposeHandshake | client.py:55 | The handshake is the ten marker octets followed by the key octets. |
| Client.SplitOpening | client.py:57-59 | The opening splits at index five, or at its end if shorter, into a hint part and a digest part that concatenate back to the message. |
| Client.Validate | client.py:72-79 | Checked in order: a guess that is not alphabetic (including the empty one) is invalid. Otherwise fewer than five letters is too short and more than five is too long. Only an alphabetic five-letter guess is valid. |
| Client.PromptForGuess | client.py:68-79 | The prompt returns the first line that passes validation, after rejecting every line before it. If the input runs out, every line was rejected. |
| Client.Matches | client.py:81-82 | The guess matches when the digest of its upper-cased form is the committed digest. Its partner `Protocol.MatchesIffCommittedWord` states what that means. |
| Client.Judge | client.py:93-104 | A digest match and a reply with no digits means cheating is detected. A digest match and some digits means a win, with the score taken from the digits and the message being the reply after that many characters. Anything else is shown and play continues. |
| Client.AfterVerdictAsWritten | client.py:94-104 | As written: detected cheating closes the connection but leaves the loop flag as it was. A win clears the flag. Any other verdict changes nothing. |
| Client.CheatingLeavesLoopRunning | client.py:64-96 | As written, detected cheating leaves the loop running over a closed connection, so no further round can be played. |
| Client.AfterVerdict | client.py:94-104 | Corrected: the loop continues only after a verdict that is merely shown. The invariant that a running loop has an open connection is preserved. |
| Client.CorrectedLoopKeepsConnection | client.py:64-106 | With the correction, after any sequence of verdicts, a loop that is still running has an open connection. |
| Protocol.MatchesIffCommittedWord | client.py:81-82 | With an injective digest, a guess matches the commitment if and only if its upper-cased form is the committed word, whatever the guess's case. |
| Protocol.HandshakeRoundTrip | server.py:129-131 | The server recovers exactly the key the client appended to the marker. |
| Protocol.HandshakeAcceptsOnlyComposed | server.py:129-136 | The server starts a game for a message if and only if the message is the client's composition for some key. |
| Protocol.OpeningRoundTrip | client.py:57-61 | Splitting the server's opening gives the placeholder and the committed digest, and the client enters the game. |
| Protocol.EntersGameIffPlaceholder | client.py:60 | The client plays exactly when the opening begins with five underscores. |
| Protocol.WinReplyParses | client.py:93-98 | The digit filter of `str(n) + "GAME OVER\n"` is `str(n)`. A matching guess with that reply is a win with score `str(n)` and message `GAME OVER\n`. |
| Protocol.NonWinningReplyHasNoDigit | server.py:83-89 | For a guess that passes the client's check (five letters) and does not win, the server replies without a fault, and the reply (`INVALID GUESS\n` or a hint) contains no digit. |
| Protocol.HonestRound | client.py:81-104 | Honest server, injective digest, word in the list, valid guess: a guess equal to the word reads as a win whose score is the server's new count. Any other guess is just shown. |
| Protocol.SwappedWordIsDetected | client.py:94-96 | If the server plays a word other than the one it committed to, a valid guess of the committed word is flagged as cheating, whether the server rejects it or hints it. |
| Protocol.CraneGrapeScenario | client.py:81-96 | Committing to CRANE, playing GRAPE and guessing CRANE is flagged as cheating. |
| Protocol.WordOutsideListLooksLikeCheating | server.py:76-89 | An honest server whose word is missing from the list text rejects the right guess, and the client reports cheating. So the honest-server property needs the word in the list. |
| Protocol.Verdicts | client.py:92-104 | The client's reading of a run of replies gives one verdict per reply. |
| Protocol.HonestGameNeverAccuses | client.py:64-104 | Over a whole honest game of valid guesses, no reply is ever read as cheating. |
| Protocol.HonestGameScore | client.py:97-100 | A whole honest game of valid guesses never faults. If it ends, the last reply reads as a win whose score is the decimal count of the guesses the server accepted. |
| Text.Digits | client.py:93 | The score filter keeps only decimal digits and is never longer than the reply. It is empty exactly when the reply has no digit, which is the test behind the cheating verdict. |
| Text.DecimalRoundTrip | server.py:81 | The rendered counter reads back as the counter, so different counts give different scores. |

## Left out

- TLS socket setup, bind, listen, accept and connect (server.py:100-124, client.py:28-49) are network I/O and are not modelled.
- Fernet encryption is modelled as the identity: each message is its plaintext. Decryption failures are not modelled, and neither is `Fernet(key)` raising on a malformed key in the accept loop.
- SHA3-256 is a function parameter. Its hexadecimal output format is not modelled, and injectivity is assumed only where a property says so.
- File reading and `random.choice` (server.py:43-50, 75-76) are replaced by parameters: the selected word and the guess-list text. The list file is assumed not to change during a session.
- Thread spawning (server.py:133) is left out: sessions share no state.
- Console input and printed messages are not modelled. The prompt loop reads from a sequence of lines, and running out of lines stands for end of input.
- Message framing by `recv(1024)` is not modelled.
- The handshake prefix is compared octet by octet. The source decodes the prefix as UTF-8 first (server.py:129). A prefix that is not valid UTF-8 raises outside any handler in the accept loop, and the model does not cover that.
- `isalpha`, `upper` and `isdigit` are restricted to ASCII. The source's Unicode-wide versions are not modelled.
- Server.Respond: requires a five-character word, as the target list is assumed to hold five-letter words.
- Server.Play: after a `Fault` the transcript keeps the state before the failing guess. The source has already incremented the counter by then, but the thread dies, so nothing observes it.
- Hint.Generate: requires a guess of at most five characters and a five-character answer. With a five-letter answer the source raises exactly on a guess longer than five characters (`answer[5]`, server.py:34), and the session models that as `Fault`. Other answer lengths are excluded by the assumption that the target list holds five-letter words.
- Hint.HintReference: is stated only for an upper-cased guess and an upper-case ASCII letter at the slot. The server may pass accepted text holding other characters (a newline or a digit taken from the list text), and the lemma does not cover such slots: an underscore in the guess would have its marker count include the hint's blanks, and a character with no case is counted once as itself and again as its own lower case. The honest client sends only letters. Hint.LetterMarkers is restricted the same way.

## Findings

| source | as written | input that shows it | evidently intended | confidence | as-written member | corrected member |
|---|---|---|---|---|---|---|
| client.py:94-96 | On detected cheating the client closes the connection but leaves `active_game_state` set. The loop prompts again and then sends on the closed connection. | The server commits to CRANE but plays GRAPE, and the player guesses CRANE. | Detected cheating ends the game loop. | high, not executed | Client.CheatingLeavesLoopRunning | Client.CorrectedLoopKeepsConnection |
