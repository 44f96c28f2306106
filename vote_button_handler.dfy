/**
 * The button handler of voteModule/handlers/voteButtonHandler.ts: the same
 * validation and clear-then-set update as the registry's own handler, reached
 * through `getActiveVote`, followed by the re-rendered tally that the shared
 * vote message is edited to and a private acknowledgment with the new count.
 */
module VoteButtonHandler {
  import opened Wrappers
  import opened JsText
  import opened VoteManager

  /** One field of the tally embed: its name line and its value line. */
  datatype EmbedField = EmbedField(name: string, value: string)

  /**
   * What one button press sends to the chat: the tally fields the shared
   * message is edited to (absent when it is not edited) and the private reply
   * to the voter (absent when there is none).
   */
  datatype Response = Response(edit: Option<seq<EmbedField>>, reply: Option<string>)

  /** `${numberEmojis[idx]}`: the keycap glyph, or the text "undefined" past the ninth entry. */
  function EmojiLabel(idx: nat): (glyph: string)
    ensures idx < 9 ==> glyph == [DecimalChar(idx + 1), '\U{FE0F}', '\U{20E3}']
    ensures idx >= 9 ==> glyph == "undefined"
  {
    if idx < |NumberEmojis| then NumberEmojis[idx] else "undefined"
  }

  /** The tally line of entry `entry` at position `idx`: `<emoji> Image <number> (<votes> votes)`, with its prompt. */
  function TallyField(idx: nat, entry: VoteEntry): EmbedField
  {
    EmbedField(EmojiLabel(idx) + " Image " + IntToString(entry.number) + " (" + IntToString(|entry.votes|) + " votes)",
               "Prompt: " + entry.prompt)
  }

  /**
   * A tally field is headed by the keycap of its position (the text
   * "undefined" past the ninth), ends in ` votes)`, and its value line is the
   * entry's prompt after `Prompt: `.
   */
  lemma TallyFieldShape(idx: nat, entry: VoteEntry)
    ensures var field := TallyField(idx, entry);
            && EmojiLabel(idx) + " Image " <= field.name
            && |field.name| >= 7 && field.name[|field.name| - 7..] == " votes)"
            && "Prompt: " <= field.value && field.value[8..] == entry.prompt
  {
  }

  /** The private confirmation: the entry's number and its vote count. */
  function Acknowledgment(entry: VoteEntry): (ack: string)
    ensures VotedNotice(entry.number) <= ack
  {
    "You voted for Image " + IntToString(entry.number) + "! Current votes: " + IntToString(|entry.votes|)
  }

  /** The second `forEach`: one tally field per entry, in the order of the entries. */
  method BuildTallyFields(entries: seq<VoteEntry>) returns (fields: seq<EmbedField>)
    ensures |fields| == |entries|
    ensures forall i :: 0 <= i < |entries| ==> fields[i] == TallyField(i, entries[i])
  {
    fields := [];
    var idx := 0;
    while idx < |entries|
      invariant 0 <= idx <= |entries|
      invariant |fields| == idx
      invariant forall i :: 0 <= i < idx ==> fields[i] == TallyField(i, entries[i])
    {
      var field := TallyField(idx, entries[idx]);
      assert forall i :: 0 <= i < idx ==> (fields + [field])[i] == fields[i];
      fields := fields + [field];
      idx := idx + 1;
    }
  }

  /**
   * `handleVoteButton` of voteButtonHandler.ts. Every rejection leaves the
   * registry untouched and never edits the shared message; a recorded vote
   * edits it to the updated tally and acknowledges the chosen entry's number
   * and new count.
   */
  method HandleVoteButton(registry: VoteRegistry, customId: string, channelId: string, voter: string, now: int)
    returns (response: Response)
    modifies registry
    ensures registry.activeVotes == Apply(old(registry.activeVotes), Decide(old(registry.activeVotes), customId, channelId, now), channelId, voter)
    ensures match Decide(old(registry.activeVotes), customId, channelId, now)
            case Ignored => response == Response(None, None)
            case SessionNotFound => response == Response(None, Some(EndedNotice))
            case SessionExpired => response == Response(None, Some(EndedNotice))
            case InvalidOption => response == Response(None, Some(InvalidOptionNotice))
            case Recorded(k) =>
              var entries := registry.activeVotes[channelId].entries;
              && response.edit.Some? && |response.edit.value| == |entries|
              && (forall i :: 0 <= i < |entries| ==> response.edit.value[i] == TallyField(i, entries[i]))
              && response.reply == Some(Acknowledgment(entries[k]))
    ensures old(registry.Valid()) ==> registry.Valid()
  {
    ghost var o := Decide(registry.activeVotes, customId, channelId, now);
    var parts := Split(customId, '_');
    if parts[0] != VoteTag {
      return Response(None, None);
    }
    var voteData := registry.GetActiveVote(channelId);
    if voteData.None? {
      return Response(None, Some(EndedNotice));
    }
    if now > voteData.value.endTime {
      return Response(None, Some(EndedNotice));
    }
    var index := if |parts| > 1 then Some(parts[1]) else None;
    var entry := EntryIndex(voteData.value.entries, index);
    if entry.None? {
      return Response(None, Some(InvalidOptionNotice));
    }
    var k := entry.value;
    assert o == Recorded(k);
    var updated := ClearThenSet(voteData.value, k, voter);
    registry.SetActiveVote(channelId, updated);
    var fields := BuildTallyFields(updated.entries);
    response := Response(Some(fields), Some(Acknowledgment(updated.entries[k])));
  }

  // ---------------------------------------------------------------------------
  // The texts can be read back
  // ---------------------------------------------------------------------------

  /** Two texts that agree after a common prefix agree. */
  lemma DropCommonPrefix(p: string, x: string, y: string)
    requires p + x == p + y
    ensures x == y
  {
    assert x == (p + x)[|p|..];
    assert y == (p + y)[|p|..];
  }

  /** Cutting at the first occurrence of a delimiter that neither head contains gives the same pieces. */
  lemma {:induction false} SplitAtDelimiter(a: string, b: string, a': string, b': string, d: char)
    requires d !in a && d !in a'
    requires a + [d] + b == a' + [d] + b'
    ensures a == a' && b == b'
    decreases |a|
  {
    var s, s' := a + [d] + b, a' + [d] + b';
    if a == [] && a' == [] {
      assert b == s[1..] && b' == s'[1..];
    } else if a != [] && a' != [] {
      assert a[0] == s[0] && a'[0] == s'[0];
      assert a[1..] + [d] + b == s[1..];
      assert a'[1..] + [d] + b' == s'[1..];
      SplitAtDelimiter(a[1..], b, a'[1..], b', d);
      assert a == [a[0]] + a[1..];
      assert a' == [a'[0]] + a'[1..];
    } else if a == [] {
      HeadOfDelimited(a', d, b');
      assert false;
    } else {
      HeadOfDelimited(a, d, b);
      assert false;
    }
  }

  lemma HeadOfDelimited(a: string, d: char, b: string)
    requires a != []
    ensures (a + [d] + b)[0] == a[0]
  {
  }

  /** The decimal text of an integer holds neither a space nor an exclamation mark. */
  lemma IntToStringHasNoDelimiter(n: int)
    ensures ' ' !in IntToString(n) && '!' !in IntToString(n)
  {
  }

  /** The tally name line, regrouped around the space that ends the entry number. */
  lemma TallyNameParts(glyph: string, a: string, c: string)
    ensures glyph + " Image " + a + " (" + c + " votes)" == (glyph + " Image ") + (a + [' '] + ("(" + c + " votes)"))
    ensures ("(" + c + " votes)")[1..|c| + 1] == c
  {
  }

  /** The acknowledgment, regrouped around the `!` that ends the entry number. */
  lemma AcknowledgmentParts(a: string, c: string)
    ensures "You voted for Image " + a + "! Current votes: " + c
            == "You voted for Image " + (a + ['!'] + (" Current votes: " + c))
  {
  }

  /** A tally line tells which number its entry has, how many votes it holds and its prompt. */
  lemma TallyFieldDetermines(idx: nat, e: VoteEntry, e': VoteEntry)
    requires TallyField(idx, e) == TallyField(idx, e')
    ensures e.number == e'.number && |e.votes| == |e'.votes| && e.prompt == e'.prompt
  {
    var p := EmojiLabel(idx) + " Image ";
    var a, a' := IntToString(e.number), IntToString(e'.number);
    var c, c' := IntToString(|e.votes|), IntToString(|e'.votes|);
    var b, b' := "(" + c + " votes)", "(" + c' + " votes)";
    TallyNameParts(EmojiLabel(idx), a, c);
    TallyNameParts(EmojiLabel(idx), a', c');
    DropCommonPrefix(p, a + [' '] + b, a' + [' '] + b');
    IntToStringHasNoDelimiter(e.number);
    IntToStringHasNoDelimiter(e'.number);
    SplitAtDelimiter(a, b, a', b', ' ');
    IntToStringInjective(e.number, e'.number);
    assert |c| == |c'|;
    IntToStringInjective(|e.votes|, |e'.votes|);
    DropCommonPrefix("Prompt: ", e.prompt, e'.prompt);
  }

  /** The acknowledgment tells which number the chosen entry has and how many votes it now holds. */
  lemma AcknowledgmentDetermines(e: VoteEntry, e': VoteEntry)
    requires Acknowledgment(e) == Acknowledgment(e')
    ensures e.number == e'.number && |e.votes| == |e'.votes|
  {
    var p := "You voted for Image ";
    var a, a' := IntToString(e.number), IntToString(e'.number);
    var q := " Current votes: ";
    var c, c' := IntToString(|e.votes|), IntToString(|e'.votes|);
    AcknowledgmentParts(a, c);
    AcknowledgmentParts(a', c');
    DropCommonPrefix(p, a + ['!'] + (q + c), a' + ['!'] + (q + c'));
    IntToStringHasNoDelimiter(e.number);
    IntToStringHasNoDelimiter(e'.number);
    SplitAtDelimiter(a, q + c, a', q + c', '!');
    DropCommonPrefix(q, c, c');
    IntToStringInjective(e.number, e'.number);
    IntToStringInjective(|e.votes|, |e'.votes|);
  }
}

/**
 * A client of the contracts above: a three-image session in which one voter
 * votes and then moves the vote, a second voter joins, an index past the last
 * entry is refused and a press after the end time is refused, the session
 * staying registered.
 */
module VoteScenario {
  import opened Wrappers
  import opened VoteManager
  import opened VoteButtonHandler

  /** The three images of the session, with the given vote sets. */
  function Images(a: set<string>, b: set<string>, c: set<string>): seq<VoteEntry>
  {
    [VoteEntry("a.png", "A", "", a, 1), VoteEntry("b.png", "B", "", b, 2), VoteEntry("c.png", "C", "", c, 3)]
  }

  /** The first vote of `u1`, for the second image. */
  method FirstVoteScenario(t: int)
  {
    var registry := new VoteRegistry();
    registry.SetActiveVote("chan", VoteData(Images({}, {}, {}), t + 60000, "msg", 0));
    DecideVoteButton(registry.activeVotes, "chan", 1, t + 10000);
    var r := HandleVoteButton(registry, VoteButtonId(1), "chan", "u1", t + 10000);
    ghost var b := registry.activeVotes["chan"].entries[1];
    assert b.votes == {"u1"} && b.number == 2;
    assert r.reply == Some(Acknowledgment(b));
  }

  /** `u1` moves the vote from the second image to the third. */
  method MoveVoteScenario(t: int)
  {
    var registry := new VoteRegistry();
    registry.SetActiveVote("chan", VoteData(Images({}, {"u1"}, {}), t + 60000, "msg", 0));
    DecideVoteButton(registry.activeVotes, "chan", 2, t + 20000);
    var r := HandleVoteButton(registry, VoteButtonId(2), "chan", "u1", t + 20000);
    ghost var b := registry.activeVotes["chan"].entries[1];
    ghost var c := registry.activeVotes["chan"].entries[2];
    assert b.votes == {};
    assert c.votes == {"u1"} && c.number == 3;
    assert r.reply == Some(Acknowledgment(c));
  }

  /** `u2` joins `u1` on the third image. */
  method SecondVoterScenario(t: int)
  {
    var registry := new VoteRegistry();
    registry.SetActiveVote("chan", VoteData(Images({}, {}, {"u1"}), t + 60000, "msg", 0));
    DecideVoteButton(registry.activeVotes, "chan", 2, t + 30000);
    var r := registry.HandleVoteButton(VoteButtonId(2), "chan", "u2", t + 30000);
    assert registry.activeVotes["chan"].entries[2].votes == {"u1", "u2"};
  }

  /** An index past the last image and a press after the end time change nothing; the session stays registered. */
  method RefusalScenario(t: int)
  {
    var registry := new VoteRegistry();
    registry.SetActiveVote("chan", VoteData(Images({}, {}, {"u1", "u2"}), t + 60000, "msg", 0));
    ghost var before := registry.activeVotes;
    DecideVoteButton(registry.activeVotes, "chan", 5, t + 30000);
    var r := HandleVoteButton(registry, VoteButtonId(5), "chan", "u3", t + 30000);
    assert r == Response(None, Some(InvalidOptionNotice));
    assert registry.activeVotes == before;
    ExpiryBoundary(registry.activeVotes, "chan", 0, "u4");
    r := HandleVoteButton(registry, VoteButtonId(0), "chan", "u4", t + 60001);
    assert r == Response(None, Some(EndedNotice));
    assert registry.activeVotes == before;
    assert registry.GetActiveVote("chan").Some?;
  }
}
