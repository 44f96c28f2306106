# Vote session registry and vote intake, in Dafny

This project models the voting core of `voteModule`, a chat-bot module that runs
image polls in a channel. It covers two files:

- `voteModule/voteManager.ts` holds the registry of active sessions. This is a
  map from channel id to the session of that channel, with
  `getActiveVote` / `setActiveVote` / `removeActiveVote`. The file also has its
  own copy of the button handler.
- `voteModule/handlers/voteButtonHandler.ts` holds the button handler that the
  bot uses. It runs the same validation and tally update. It then rebuilds the
  tally embed that the vote message is edited to, and replies privately with
  the chosen image's number and its new vote count.

A button press goes through these checks in order. The button id is split on
`_`, and the press is ignored unless the tag is `vote`. A channel without a
session gets "This vote has ended.". So does a press after the session's end
time; the end time itself still counts as open. An index that does not name an
entry gets "Invalid vote option.". Otherwise the voter is deleted from every
entry's vote set and then added to the chosen one. This clear-then-set step
keeps each voter on at most one image (`VoteManager.Exclusive`). Every rejection
leaves the registry as it was.

Layout:

- `wrappers.dfy`: module `Wrappers`, an `Option` type for JavaScript's
  `undefined` and `NaN`.
- `js_text.dfy`: module `JsText`, the JavaScript built-ins the handlers
  depend on. These are `split` with a one-character separator, `parseInt`
  without a radix (leading white space, sign, `0x` prefix, longest digit run),
  and the decimal text of an integer in a template literal. Each comes with
  its inverse and a round-trip lemma.
- `vote_manager.dfy`: module `VoteManager`. It holds the records, the pure
  specification of the tally update (`ClearVoter`, `CastVote`) and of the
  validation (`Decide`, `Apply`), and the lemmas about them. The class
  `VoteRegistry` has the `activeVotes` map and its operations, plus the
  voteManager.ts handler as a method that updates the map.
- `vote_button_handler.dfy`: module `VoteButtonHandler`, the voteButtonHandler.ts
  handler with the tally fields and the acknowledgment, and lemmas showing that
  both texts can be read back. Module `VoteScenario` is a client with four
  scenarios over a three-image session: a first vote, a moved vote, a second
  voter, and an out-of-range index followed by a late press. Each scenario
  starts from a session it builds itself and reasons only from the contracts.

The clock is the parameter `now` (milliseconds, as `Date.now()` gives). Where the
source mutates a `Set` inside a session held in the map, the model computes the
updated session and writes it back into the registry's map.

Three points of the code that the model keeps as written:

- `setActiveVote` always overwrites a channel's session; it never rejects one.
- "No session" and "expired" get the same reply, "This vote has ended.".
- The voteButtonHandler.ts handler builds the tally fields itself.

## Model

| member | source | states |
|---|---|---|
| `JsText.Split` | voteModule/voteManager.ts:44 | `split('_')` always gives at least one piece, and no piece contains the separator |
| `JsText.JoinSplit` | voteModule/voteManager.ts:44 | joining the pieces of a split with the separator gives back the original id |
| `JsText.SplitJoin` | voteModule/voteManager.ts:44 | splitting a join of separator-free pieces gives back exactly those pieces |
| `JsText.SplitHead` | voteModule/voteManager.ts:44 | the action tag is the longest prefix without `_`: the whole id, or followed by `_` |
| `JsText.SplitRest` | voteModule/voteManager.ts:44 | the split has a single piece exactly when there is no `_`; otherwise it is the first piece followed by the split of what comes after the first `_` |
| `JsText.TrimStart` | voteModule/voteManager.ts:58 | `parseInt` drops exactly the leading white-space characters: the result is a suffix, everything dropped is white space, and the rest does not start with white space |
| `JsText.DigitRun` | voteModule/voteManager.ts:58 | `parseInt` reads the longest prefix of digits: every character before the cut is a digit and the one at the cut is not |
| `JsText.ParseUnsigned` | voteModule/voteManager.ts:58 | after white space and sign, `parseInt` gives `NaN` exactly when the text is empty, does not start with a decimal digit, or is a `0x`/`0X` prefix with no hexadecimal digit after it |
| `JsText.ParseSigned` | voteModule/voteManager.ts:58 | an empty text is `NaN`; a negative result only comes from a leading `-`, and a leading `-` never gives a positive one; a leading digit not followed by `x` or `X` always gives a number of at least 0 |
| `JsText.ParseInt` | voteModule/voteManager.ts:58 | `parseInt(index)`: an empty or all-white-space text is `NaN`; a negative result only comes from a `-` right after the white space, and that `-` never gives a positive one |
| `JsText.NatToString` | voteModule/handlers/voteButtonHandler.ts:47 | the decimal text of a count is non-empty, all digits, and has no leading zero |
| `JsText.IntToString` | voteModule/handlers/voteButtonHandler.ts:59 | the text of an image number or count is non-empty and made of digits and `-` only |
| `JsText.ParseIntOfIntToString` | voteModule/voteManager.ts:58 | `parseInt` reads back the decimal text of every integer, also when text follows that does not continue the number (`"1abc"` gives 1) |
| `JsText.IntToStringInjective` | voteModule/handlers/voteButtonHandler.ts:59 | different numbers have different decimal texts |
| `VoteManager.ClearVoter` | voteModule/voteManager.ts:64-65 | after the delete loop the voter is in no entry's vote set, every other voter's membership is as before, and nothing else in an entry changes |
| `VoteManager.CastVote` | voteModule/voteManager.ts:64-68 | after clear-then-set the voter is in entry `k`'s set and in no other; every other voter's memberships and every other field are untouched; the one-choice invariant is kept |
| `VoteManager.ExclusiveVoterCount` | voteModule/voteManager.ts:64-68 | under the invariant a voter is counted in at most one entry, and in exactly one when some entry holds the voter |
| `VoteManager.CastVoteTotal` | voteModule/handlers/voteButtonHandler.ts:33-37 | under the one-choice invariant (`Exclusive`), a vote raises the total across entries by one for a new voter and leaves it unchanged for a voter who already had a vote |
| `VoteManager.SwitchVote` | voteModule/handlers/voteButtonHandler.ts:33-37 | under the one-choice invariant (`Exclusive`), moving a vote from entry i to entry j takes one off i's count, adds one to j's, and keeps the total |
| `VoteManager.FirstVote` | voteModule/handlers/voteButtonHandler.ts:33-37 | a voter's first vote adds one to the chosen entry and changes no other entry |
| `VoteManager.RevoteUnchanged` | voteModule/handlers/voteButtonHandler.ts:33-37 | voting again for the entry the voter already has leaves the whole tally, and so every count, unchanged |
| `VoteManager.CastVoteIdempotent` | voteModule/handlers/voteButtonHandler.ts:33-37 | casting the same vote twice gives the same tally as casting it once |
| `VoteManager.ClearThenSet` | voteModule/voteManager.ts:64-68 | the `forEach` delete loop followed by `add` computes `CastVote`, and leaves `endTime`, `messageId`, `currentIndex` and the number of entries as they were |
| `VoteManager.ButtonAction` | voteModule/voteManager.ts:44 | `action` is the longest prefix of the id without `_`: the whole id, or followed by `_` |
| `VoteManager.ButtonIndex` | voteModule/voteManager.ts:44 | `index` is undefined exactly when the id has no `_`; otherwise it is the longest `_`-free prefix of what follows the first `_` |
| `VoteManager.EntryIndex` | voteModule/voteManager.ts:58-59 | `entries[parseInt(index)]` finds an entry exactly when the index text parses to an integer from 0 to `entries.length - 1`, and then it is the entry at that integer |
| `VoteManager.Decide` | voteModule/voteManager.ts:44-62 | each rejection happens exactly when its check fails and the earlier checks pass, in the order tag, session, expiry, index; a vote is recorded exactly when all four pass |
| `VoteManager.Apply` | voteModule/voteManager.ts:47-68 | a rejection leaves the registry unchanged; a vote changes only the tally of that channel's session, and the channel stays registered |
| `VoteManager.ApplyKeepsExclusive` | voteModule/voteManager.ts:64-68 | a button press keeps every session's one-choice-per-voter invariant |
| `VoteManager.ButtonActionIsVote` | voteModule/voteManager.ts:44-45 | a press is handled exactly when the id is `vote` or starts with `vote_`; every other id is ignored |
| `VoteManager.VoteButtonIdParts` | voteModule/voteManager.ts:44-58 | the id `vote_<k>` splits into the vote tag and an index text that `parseInt` reads as `k` |
| `VoteManager.DecideVoteButton` | voteModule/voteManager.ts:58-62 | on an open session, `vote_<k>` records a vote for entry k when `0 <= k < entries.length`, and is an invalid option for a negative k or one at or past the length |
| `VoteManager.ExpiryBoundary` | voteModule/voteManager.ts:53-56 | a press at exactly `endTime` records the vote; one a millisecond later is expired, changes nothing and leaves the session registered |
| `VoteManager.ExpiredIsFinal` | voteModule/voteManager.ts:53 | `Date.now() > endTime` only grows true: once a session has expired, every later vote press in that channel is refused as expired and leaves the registry unchanged |
| `VoteManager.ManagerReply` | voteModule/voteManager.ts:45-73 | no reply exactly when the press is ignored; "This vote has ended." exactly for a missing or expired session; "Invalid vote option." exactly for a bad index; otherwise the recorded-vote text of the chosen entry |
| `VoteManager.VotedNotice` | voteModule/voteManager.ts:71 | `You voted for Image <number>!` differs from both refusal notices, so the voter can tell a recorded vote from a refusal |
| `VoteManager.VoteRegistry.constructor` | voteModule/voteManager.ts:26 | the registry starts empty |
| `VoteManager.VoteRegistry.GetActiveVote` | voteModule/voteManager.ts:28-30 | the lookup finds a session exactly when the channel has one, and then it is that session, whatever its end time |
| `VoteManager.VoteRegistry.SetActiveVote` | voteModule/voteManager.ts:32-34 | afterwards the lookup for the channel gives the new session, whatever was there before, and every other channel's lookup is unchanged |
| `VoteManager.VoteRegistry.RemoveActiveVote` | voteModule/voteManager.ts:36-38 | afterwards the lookup for the channel finds nothing; removing an absent channel changes nothing; other channels are unchanged |
| `VoteManager.VoteRegistry.HandleVoteButton` | voteModule/voteManager.ts:40-88 | the registry becomes `Apply` of the `Decide` outcome, so every rejection leaves it untouched; the reply is the ended or invalid-option notice, or `You voted for Image <number>!`; the invariant is kept |
| `VoteButtonHandler.BuildTallyFields` | voteModule/handlers/voteButtonHandler.ts:45-50 | one field per entry, in entry order, named `<emoji> Image <number> (<votes.size> votes)` with value `Prompt: <prompt>` |
| `VoteButtonHandler.EmojiLabel` | voteModule/handlers/voteButtonHandler.ts:47 | `numberEmojis[idx]` is the keycap of digit `idx + 1` for the first nine entries, and prints as `undefined` from the tenth on |
| `VoteButtonHandler.TallyFieldShape` | voteModule/handlers/voteButtonHandler.ts:46-48 | a tally field's name starts with its position's keycap and ` Image `, and ends in ` votes)`; its value is `Prompt: ` followed by the entry's prompt |
| `VoteButtonHandler.Acknowledgment` | voteModule/handlers/voteButtonHandler.ts:59 | the acknowledgment starts with the same `You voted for Image <number>!` that voteManager.ts replies with, and then adds the count |
| `VoteButtonHandler.HandleVoteButton` | voteModule/handlers/voteButtonHandler.ts:9-77 | same registry effect as the registry's own handler; a rejection never edits the message; a recorded vote edits it to one tally field per updated entry and acknowledges the chosen entry's number and new count |
| `VoteButtonHandler.TallyFieldDetermines` | voteModule/handlers/voteButtonHandler.ts:46-49 | a tally field determines its entry's number, vote count and prompt, so the count shown is that entry's `votes.size` |
| `VoteButtonHandler.AcknowledgmentDetermines` | voteModule/handlers/voteButtonHandler.ts:58-61 | the acknowledgment determines the chosen entry's number and its vote count after the update |

## Left out

- Discord I/O is not modelled: `interaction.reply`, `interaction.message.edit` and the `EmbedBuilder`. A press yields a value instead: the edit's tally fields, if any, and the private reply text, if any.
- The embed title, colour and description are not modelled. The description's countdown (`Math.floor(endTime / 1000)`) is display-only.
- Logging (`pino`, `logger.info`, `logger.error`) is left out.
- The `try`/`catch` path is left out, and so is the second, generic error reply it sends. A failed refusal reply (voteManager.ts:49,54,60; voteButtonHandler.ts:18,23,29) leaves the registry as it was. A failed edit or acknowledgment comes after the tally is committed and is never rolled back. The model stops at the registry as it stands at that point.
- `async`/`await` is not modelled. Each press runs to completion. The clear-then-set step has no suspension point in the source, so it is atomic here too. The acknowledgment is different: voteButtonHandler.ts:59 reads `entry.votes.size` after `await interaction.message.edit` (line 53). A press handled during that wait can change the count the voter is told. The post-update count that `VoteButtonHandler.HandleVoteButton` promises holds only under run-to-completion.
- The clock `Date.now()` is the parameter `now`.
- VoteManager.CastVoteTotal, VoteManager.SwitchVote: the count laws hold only for sessions that keep the one-choice invariant. `setActiveVote` accepts any session, and one that holds a voter in two entries loses a vote from the total when that voter votes again. The model proves that every press keeps the invariant (`ApplyKeepsExclusive`), but does not stop a caller from registering a session without it.
- Aliasing is not modelled. In the source, the handler mutates the `Set` objects of the session it looked up, so anyone holding that `VoteData` sees the change. Here the updated session is written back into the registry's map. Any other reference to the old session value is not updated.
- `VoteEntry.number` and `endTime` are modelled as unbounded integers. JavaScript numbers are doubles: a fractional or huge image number would print differently from `IntToString`.
- JsText.ParseInt: very long digit runs are read exactly, where JavaScript rounds them to a double. Rounding only happens past 2^53, so it cannot turn an out-of-range index into a valid one.
- Strings are sequences of Unicode scalar values, not UTF-16 code units. The handlers only split on `_` and compare whole strings, so this makes no difference to them.
- `imageUrl`, `caption` and `currentIndex` are carried along but never read, as in the source. The session-creating and session-ending commands are not part of this model.
