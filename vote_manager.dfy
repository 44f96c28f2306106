/**
 * The vote session registry of voteModule/voteManager.ts and the vote-intake
 * rule its `handleVoteButton` applies: a map from channel id to the session
 * running in that channel, and the clear-then-set update that keeps each
 * voter on at most one image of a session.
 */
module VoteManager {
  import opened Wrappers
  import opened JsText

  /** One image on the ballot, with the ids of the users currently voting for it. */
  datatype VoteEntry = VoteEntry(imageUrl: string, prompt: string, caption: string, votes: set<string>, number: int)

  /** One session: its entries, the time (milliseconds) after which it is closed, its message, its slideshow cursor. */
  datatype VoteData = VoteData(entries: seq<VoteEntry>, endTime: int, messageId: string, currentIndex: int)

  /** The keycap glyphs one to nine that label the entries of the tally. */
  const NumberEmojis: seq<string> := [
    "1\U{FE0F}\U{20E3}", "2\U{FE0F}\U{20E3}", "3\U{FE0F}\U{20E3}",
    "4\U{FE0F}\U{20E3}", "5\U{FE0F}\U{20E3}", "6\U{FE0F}\U{20E3}",
    "7\U{FE0F}\U{20E3}", "8\U{FE0F}\U{20E3}", "9\U{FE0F}\U{20E3}"
  ]

  const VoteTag := "vote"
  const EndedNotice := "This vote has ended."
  const InvalidOptionNotice := "Invalid vote option."

  // ---------------------------------------------------------------------------
  // The tally: clear-then-set and the one-choice-per-voter invariant
  // ---------------------------------------------------------------------------

  /** No voter is in the vote sets of two different entries. */
  predicate Exclusive(entries: seq<VoteEntry>)
  {
    forall i, j, w :: 0 <= i < |entries| && 0 <= j < |entries| && w in entries[i].votes && w in entries[j].votes ==> i == j
  }

  /** Every entry with `voter` deleted from its vote set (the first `forEach`). */
  function ClearVoter(entries: seq<VoteEntry>, voter: string): (r: seq<VoteEntry>)
    ensures |r| == |entries|
    ensures forall i :: 0 <= i < |r| ==> voter !in r[i].votes
    ensures forall i, w :: 0 <= i < |r| && w != voter ==> (w in r[i].votes <==> w in entries[i].votes)
    ensures forall i :: 0 <= i < |r| ==> r[i].(votes := entries[i].votes) == entries[i]
    decreases |entries|
  {
    if entries == [] then []
    else [entries[0].(votes := entries[0].votes - {voter})] + ClearVoter(entries[1..], voter)
  }

  /**
   * The tally after `voter` votes for entry `k`: the voter is cleared from
   * every entry and then added to entry `k`. Nobody else's vote moves, and
   * nothing but the vote sets changes.
   */
  function CastVote(entries: seq<VoteEntry>, k: nat, voter: string): (r: seq<VoteEntry>)
    requires k < |entries|
    ensures |r| == |entries|
    ensures forall i :: 0 <= i < |r| ==> (voter in r[i].votes <==> i == k)
    ensures forall i, w :: 0 <= i < |r| && w != voter ==> (w in r[i].votes <==> w in entries[i].votes)
    ensures forall i :: 0 <= i < |r| ==> r[i].(votes := entries[i].votes) == entries[i]
    ensures Exclusive(entries) ==> Exclusive(r)
  {
    var cleared := ClearVoter(entries, voter);
    cleared[k := cleared[k].(votes := cleared[k].votes + {voter})]
  }

  /** The number of votes over all entries. */
  function TotalVotes(entries: seq<VoteEntry>): nat
    decreases |entries|
  {
    if entries == [] then 0 else |entries[0].votes| + TotalVotes(entries[1..])
  }

  /** The number of entries whose vote set holds `voter`. */
  function VoterCount(entries: seq<VoteEntry>, voter: string): nat
    decreases |entries|
  {
    if entries == [] then 0 else (if voter in entries[0].votes then 1 else 0) + VoterCount(entries[1..], voter)
  }

  /** Under the invariant a voter holds at most one vote, and holds one exactly when some entry has it. */
  lemma {:induction false} ExclusiveVoterCount(entries: seq<VoteEntry>, voter: string)
    requires Exclusive(entries)
    ensures VoterCount(entries, voter) <= 1
    ensures VoterCount(entries, voter) == 1 <==> exists i :: 0 <= i < |entries| && voter in entries[i].votes
    decreases |entries|
  {
    if entries != [] {
      var tail := entries[1..];
      assert Exclusive(tail) by {
        forall i, j, w | 0 <= i < |tail| && 0 <= j < |tail| && w in tail[i].votes && w in tail[j].votes
          ensures i == j
        {
          assert w in entries[i + 1].votes && w in entries[j + 1].votes;
        }
      }
      ExclusiveVoterCount(tail, voter);
      if voter in entries[0].votes {
        forall i | 0 <= i < |tail| ensures voter !in tail[i].votes {
          assert entries[i + 1] == tail[i];
        }
      }
      if exists i :: 0 <= i < |tail| && voter in tail[i].votes {
        var i :| 0 <= i < |tail| && voter in tail[i].votes;
        assert voter in entries[i + 1].votes;
      }
      if exists i :: 0 <= i < |entries| && voter in entries[i].votes {
        var i :| 0 <= i < |entries| && voter in entries[i].votes;
        if i > 0 {
          assert voter in tail[i - 1].votes;
        }
      }
    }
  }

  /** Clearing a voter removes exactly one vote per entry that held it. */
  lemma {:induction false} TotalVotesOfClearVoter(entries: seq<VoteEntry>, voter: string)
    ensures TotalVotes(ClearVoter(entries, voter)) + VoterCount(entries, voter) == TotalVotes(entries)
    decreases |entries|
  {
    if entries != [] {
      TotalVotesOfClearVoter(entries[1..], voter);
      var s := entries[0].votes;
      if voter in s {
        assert s == (s - {voter}) + {voter};
      } else {
        assert s - {voter} == s;
      }
    }
  }

  /** Replacing one entry changes the total by the difference of the two vote counts. */
  lemma {:induction false} TotalVotesOfUpdate(entries: seq<VoteEntry>, k: nat, e: VoteEntry)
    requires k < |entries|
    ensures TotalVotes(entries[k := e]) + |entries[k].votes| == TotalVotes(entries) + |e.votes|
    decreases |entries|
  {
    if k > 0 {
      TotalVotesOfUpdate(entries[1..], k - 1, e);
      assert entries[k := e][1..] == entries[1..][k - 1 := e];
    } else {
      assert entries[k := e][1..] == entries[1..];
    }
  }

  /**
   * Under the invariant a vote adds one to the total when the voter had not
   * voted yet, and leaves the total as it was when the voter moves or repeats
   * the vote.
   */
  lemma CastVoteTotal(entries: seq<VoteEntry>, k: nat, voter: string)
    requires k < |entries|
    requires Exclusive(entries)
    ensures TotalVotes(CastVote(entries, k, voter)) ==
            TotalVotes(entries) + (if exists i :: 0 <= i < |entries| && voter in entries[i].votes then 0 else 1)
  {
    var cleared := ClearVoter(entries, voter);
    TotalVotesOfClearVoter(entries, voter);
    ExclusiveVoterCount(entries, voter);
    var s := cleared[k].votes;
    TotalVotesOfUpdate(cleared, k, cleared[k].(votes := s + {voter}));
  }

  /**
   * Moving a vote from entry `i` to entry `j` takes one vote off `i`, puts one
   * on `j`, and leaves the total unchanged.
   */
  lemma SwitchVote(entries: seq<VoteEntry>, i: nat, j: nat, voter: string)
    requires i < |entries| && j < |entries| && i != j
    requires Exclusive(entries)
    requires voter in entries[i].votes
    ensures |CastVote(entries, j, voter)[i].votes| == |entries[i].votes| - 1
    ensures |CastVote(entries, j, voter)[j].votes| == |entries[j].votes| + 1
    ensures TotalVotes(CastVote(entries, j, voter)) == TotalVotes(entries)
  {
    var r := CastVote(entries, j, voter);
    var si, sj := entries[i].votes, entries[j].votes;
    assert voter !in sj;
    assert r[i].votes == si - {voter};
    assert r[j].votes == sj + {voter};
    CardinalityOfRemove(si, voter);
    CastVoteTotal(entries, j, voter);
  }

  lemma CardinalityOfRemove(s: set<string>, x: string)
    requires x in s
    ensures |s - {x}| == |s| - 1
  {
    assert s == (s - {x}) + {x};
  }

  /** A first vote adds one vote to the chosen entry and changes no other entry. */
  lemma FirstVote(entries: seq<VoteEntry>, k: nat, voter: string)
    requires k < |entries|
    requires forall i :: 0 <= i < |entries| ==> voter !in entries[i].votes
    ensures |CastVote(entries, k, voter)[k].votes| == |entries[k].votes| + 1
    ensures forall i :: 0 <= i < |entries| && i != k ==> CastVote(entries, k, voter)[i] == entries[i]
  {
    var r := CastVote(entries, k, voter);
    assert r[k].votes == entries[k].votes + {voter};
    forall i | 0 <= i < |entries| && i != k ensures r[i] == entries[i] {
      assert r[i].votes == entries[i].votes;
    }
  }

  /**
   * Voting again for the entry the voter already (and only) has leaves the
   * whole tally as it was.
   */
  lemma RevoteUnchanged(entries: seq<VoteEntry>, k: nat, voter: string)
    requires k < |entries|
    requires voter in entries[k].votes
    requires forall i :: 0 <= i < |entries| && i != k ==> voter !in entries[i].votes
    ensures CastVote(entries, k, voter) == entries
  {
    var r := CastVote(entries, k, voter);
    forall i | 0 <= i < |entries| ensures r[i] == entries[i] {
      assert r[i].votes == entries[i].votes;
    }
  }

  /** Casting the same vote twice is the same as casting it once. */
  lemma CastVoteIdempotent(entries: seq<VoteEntry>, k: nat, voter: string)
    requires k < |entries|
    ensures CastVote(CastVote(entries, k, voter), k, voter) == CastVote(entries, k, voter)
  {
    RevoteUnchanged(CastVote(entries, k, voter), k, voter);
  }

  /**
   * The two `forEach`/`add` steps of the handler on one session: every
   * entry's vote set loses the voter, then entry `k`'s gains it.
   */
  method ClearThenSet(voteData: VoteData, k: nat, voter: string) returns (updated: VoteData)
    requires k < |voteData.entries|
    ensures updated == voteData.(entries := CastVote(voteData.entries, k, voter))
  {
    var entries := voteData.entries;
    var i := 0;
    while i < |entries|
      invariant 0 <= i <= |entries| == |voteData.entries|
      invariant forall j :: 0 <= j < i ==> entries[j] == voteData.entries[j].(votes := voteData.entries[j].votes - {voter})
      invariant forall j :: i <= j < |entries| ==> entries[j] == voteData.entries[j]
    {
      entries := entries[i := entries[i].(votes := entries[i].votes - {voter})];
      i := i + 1;
    }
    forall j | 0 <= j < |entries| ensures entries[j] == ClearVoter(voteData.entries, voter)[j] {
      assert entries[j].votes == ClearVoter(voteData.entries, voter)[j].votes;
    }
    entries := entries[k := entries[k].(votes := entries[k].votes + {voter})];
    updated := voteData.(entries := entries);
  }

  // ---------------------------------------------------------------------------
  // Validating a button press
  // ---------------------------------------------------------------------------

  /** What a button press leads to: the rejections in the order they are checked, or a vote for entry `index`. */
  datatype Outcome = Ignored | SessionNotFound | SessionExpired | InvalidOption | Recorded(index: nat)

  /** The action tag of a button id: the text before the first `_`. */
  function ButtonAction(customId: string): (a: string)
    ensures |a| <= |customId| && a == customId[..|a|]
    ensures '_' !in a
    ensures |a| < |customId| ==> customId[|a|] == '_'
  {
    SplitHead(customId, '_');
    Split(customId, '_')[0]
  }

  /** The index part of a button id: the text between the first and second `_`, absent without a `_`. */
  function ButtonIndex(customId: string): (index: Option<string>)
    ensures index.None? <==> '_' !in customId
    ensures index.Some? ==> |ButtonAction(customId)| < |customId|
    ensures index.Some? ==>
              var t := customId[|ButtonAction(customId)| + 1..];
              && '_' !in index.value
              && |index.value| <= |t| && index.value == t[..|index.value|]
              && (|index.value| < |t| ==> t[|index.value|] == '_')
  {
    var parts := Split(customId, '_');
    SplitRest(customId, '_');
    if |parts| > 1 then
      SplitHead(customId[|parts[0]| + 1..], '_');
      Some(parts[1])
    else None
  }

  /** The entry that `entries[parseInt(index)]` finds, as its position. */
  function EntryIndex(entries: seq<VoteEntry>, index: Option<string>): (k: Option<nat>)
    ensures k.Some? <==> index.Some? && ParseInt(index.value).Some? && 0 <= ParseInt(index.value).value < |entries|
    ensures k.Some? ==> Some(k.value as int) == ParseInt(index.value)
  {
    match index
    case None => None
    case Some(text) =>
      match ParseInt(text)
      case None => None
      case Some(n) => if 0 <= n < |entries| then Some(n) else None
  }

  /** A session is closed once the clock has passed its end time; the end time itself is still open. */
  predicate Expired(voteData: VoteData, now: int)
  {
    now > voteData.endTime
  }

  /**
   * Once a session has expired it stays expired: every later press with the
   * vote tag in that channel is refused as expired and changes nothing.
   */
  lemma ExpiredIsFinal(activeVotes: map<string, VoteData>, customId: string, channelId: string, voter: string, now: int, later: int)
    requires channelId in activeVotes && Expired(activeVotes[channelId], now) && now <= later
    requires ButtonAction(customId) == VoteTag
    ensures Expired(activeVotes[channelId], later)
    ensures Decide(activeVotes, customId, channelId, later) == SessionExpired
    ensures Apply(activeVotes, SessionExpired, channelId, voter) == activeVotes
  {
  }

  /**
   * The outcome of a press of button `customId` in channel `channelId` at time
   * `now`: the tag is checked first, then that a session exists, then that it
   * has not expired, then that the index names an entry.
   */
  function Decide(activeVotes: map<string, VoteData>, customId: string, channelId: string, now: int): (o: Outcome)
    ensures o == Ignored <==> ButtonAction(customId) != VoteTag
    ensures o == SessionNotFound <==> ButtonAction(customId) == VoteTag && channelId !in activeVotes
    ensures o == SessionExpired <==>
              ButtonAction(customId) == VoteTag && channelId in activeVotes && Expired(activeVotes[channelId], now)
    ensures o.Recorded? <==>
              ButtonAction(customId) == VoteTag && channelId in activeVotes && !Expired(activeVotes[channelId], now)
              && EntryIndex(activeVotes[channelId].entries, ButtonIndex(customId)).Some?
    ensures o.Recorded? ==> o.index < |activeVotes[channelId].entries|
                            && Some(o.index as int) == ParseInt(ButtonIndex(customId).value)
  {
    if ButtonAction(customId) != VoteTag then Ignored
    else if channelId !in activeVotes then SessionNotFound
    else if Expired(activeVotes[channelId], now) then SessionExpired
    else
      match EntryIndex(activeVotes[channelId].entries, ButtonIndex(customId))
      case None => InvalidOption
      case Some(k) => Recorded(k)
  }

  /** The registry after the press: only a recorded vote changes it, and only the session of that channel. */
  function Apply(activeVotes: map<string, VoteData>, o: Outcome, channelId: string, voter: string): (r: map<string, VoteData>)
    requires o.Recorded? ==> channelId in activeVotes && o.index < |activeVotes[channelId].entries|
    ensures !o.Recorded? ==> r == activeVotes
    ensures r.Keys == activeVotes.Keys
    ensures forall c :: c in activeVotes && c != channelId ==> r[c] == activeVotes[c]
    ensures o.Recorded? ==>
              r[channelId] == activeVotes[channelId].(entries := CastVote(activeVotes[channelId].entries, o.index, voter))
  {
    if o.Recorded? then
      var voteData := activeVotes[channelId];
      activeVotes[channelId := voteData.(entries := CastVote(voteData.entries, o.index, voter))]
    else activeVotes
  }

  /** Every session in the registry keeps the one-choice-per-voter invariant. */
  predicate AllExclusive(activeVotes: map<string, VoteData>)
  {
    forall c :: c in activeVotes ==> Exclusive(activeVotes[c].entries)
  }

  /** A button press keeps the invariant in every session. */
  lemma ApplyKeepsExclusive(activeVotes: map<string, VoteData>, customId: string, channelId: string, voter: string, now: int)
    requires AllExclusive(activeVotes)
    ensures AllExclusive(Apply(activeVotes, Decide(activeVotes, customId, channelId, now), channelId, voter))
  {
  }

  /** The reply `handleVoteButton` of voteManager.ts sends to the voter, if any. */
  function ManagerReply(o: Outcome, voteData: VoteData): (r: Option<string>)
    requires o.Recorded? ==> o.index < |voteData.entries|
    ensures r.None? <==> o == Ignored
    ensures r == Some(EndedNotice) <==> o == SessionNotFound || o == SessionExpired
    ensures r == Some(InvalidOptionNotice) <==> o == InvalidOption
    ensures o.Recorded? ==> r == Some(VotedNotice(voteData.entries[o.index].number))
  {
    match o
    case Ignored => None
    case SessionNotFound => Some(EndedNotice)
    case SessionExpired => Some(EndedNotice)
    case InvalidOption => Some(InvalidOptionNotice)
    case Recorded(k) => Some(VotedNotice(voteData.entries[k].number))
  }

  /** The confirmation of a recorded vote for the image numbered `number`; it is neither notice. */
  function VotedNotice(number: int): (t: string)
    ensures t != EndedNotice && t != InvalidOptionNotice
  {
    var t := "You voted for Image " + IntToString(number) + "!";
    assert t[0] == 'Y';
    t
  }

  // ---------------------------------------------------------------------------
  // Button ids as the vote message builds them
  // ---------------------------------------------------------------------------

  /** The id of the button for entry `k`: `vote_<k>`. */
  function VoteButtonId(k: int): string
  {
    VoteTag + "_" + IntToString(k)
  }

  /** A button id carries the vote tag exactly when it is `vote` or starts with `vote_`. */
  lemma ButtonActionIsVote(customId: string)
    ensures ButtonAction(customId) == VoteTag <==> customId == VoteTag || (|customId| > 4 && customId[..5] == VoteTag + "_")
  {
    if customId == VoteTag {
      SplitNoSeparator(customId, '_');
    } else if |customId| > 4 && customId[..5] == VoteTag + "_" {
      assert customId == VoteTag + ['_'] + customId[5..];
      SplitAfterHead(VoteTag, '_', customId[5..]);
    } else {
      SplitHead(customId, '_');
    }
  }

  /** `vote_<k>` is read back as the vote tag and the index `k`. */
  lemma VoteButtonIdParts(k: int)
    ensures ButtonAction(VoteButtonId(k)) == VoteTag
    ensures ButtonIndex(VoteButtonId(k)) == Some(IntToString(k))
    ensures ParseInt(IntToString(k)) == Some(k)
  {
    var parts := [VoteTag, IntToString(k)];
    assert Join(parts, '_') == VoteButtonId(k);
    SplitJoin(parts, '_');
    ParseIntOfIntToString(k, "");
    assert IntToString(k) + "" == IntToString(k);
  }

  /**
   * A press of `vote_<k>` in a channel with an open session records a vote
   * for entry `k` exactly when `k` is a position of an entry, and is an
   * invalid option otherwise (a negative `k` or one past the last entry).
   */
  lemma DecideVoteButton(activeVotes: map<string, VoteData>, channelId: string, k: int, now: int)
    requires channelId in activeVotes && !Expired(activeVotes[channelId], now)
    ensures 0 <= k < |activeVotes[channelId].entries| ==> Decide(activeVotes, VoteButtonId(k), channelId, now) == Recorded(k)
    ensures !(0 <= k < |activeVotes[channelId].entries|) ==> Decide(activeVotes, VoteButtonId(k), channelId, now) == InvalidOption
  {
    VoteButtonIdParts(k);
  }

  /**
   * The end time is inclusive: a press exactly at `endTime` still records the
   * vote, one millisecond later the session is expired and nothing changes,
   * the session staying in the registry.
   */
  lemma ExpiryBoundary(activeVotes: map<string, VoteData>, channelId: string, k: nat, voter: string)
    requires channelId in activeVotes && k < |activeVotes[channelId].entries|
    ensures Decide(activeVotes, VoteButtonId(k), channelId, activeVotes[channelId].endTime) == Recorded(k)
    ensures Decide(activeVotes, VoteButtonId(k), channelId, activeVotes[channelId].endTime + 1) == SessionExpired
    ensures Apply(activeVotes, SessionExpired, channelId, voter) == activeVotes
  {
    DecideVoteButton(activeVotes, channelId, k, activeVotes[channelId].endTime);
    VoteButtonIdParts(k);
  }

  // ---------------------------------------------------------------------------
  // The registry
  // ---------------------------------------------------------------------------

  /** The module-level `activeVotes` map and the functions that read and write it. */
  class VoteRegistry {
    var activeVotes: map<string, VoteData>

    ghost predicate Valid()
      reads this
    {
      AllExclusive(activeVotes)
    }

    constructor ()
      ensures activeVotes == map[]
      ensures Valid()
    {
      activeVotes := map[];
    }

    /** `getActiveVote`: the session of the channel, absent if none is registered; expiry is not checked. */
    function GetActiveVote(channelId: string): (r: Option<VoteData>)
      reads this
      ensures r.Some? <==> channelId in activeVotes
      ensures r.Some? ==> r.value == activeVotes[channelId]
    {
      if channelId in activeVotes then Some(activeVotes[channelId]) else None
    }

    /** `setActiveVote`: installs the session, replacing any session the channel had. */
    method SetActiveVote(channelId: string, voteData: VoteData)
      modifies this
      ensures activeVotes == old(activeVotes)[channelId := voteData]
      ensures GetActiveVote(channelId) == Some(voteData)
      ensures forall c :: c != channelId ==> GetActiveVote(c) == old(GetActiveVote(c))
      ensures old(Valid()) && Exclusive(voteData.entries) ==> Valid()
    {
      activeVotes := activeVotes[channelId := voteData];
    }

    /** `removeActiveVote`: forgets the channel's session; nothing happens if there is none. */
    method RemoveActiveVote(channelId: string)
      modifies this
      ensures activeVotes == old(activeVotes) - {channelId}
      ensures GetActiveVote(channelId) == None
      ensures channelId !in old(activeVotes) ==> activeVotes == old(activeVotes)
      ensures forall c :: c != channelId ==> GetActiveVote(c) == old(GetActiveVote(c))
      ensures old(Valid()) ==> Valid()
    {
      activeVotes := activeVotes - {channelId};
    }

    /**
     * `handleVoteButton` of voteManager.ts: validates the press, then moves
     * the voter's vote to the chosen entry and confirms it privately. Every
     * rejection leaves the registry untouched.
     */
    method HandleVoteButton(customId: string, channelId: string, voter: string, now: int) returns (reply: Option<string>)
      modifies this
      ensures var o := Decide(old(activeVotes), customId, channelId, now);
              && activeVotes == Apply(old(activeVotes), o, channelId, voter)
              && reply == ManagerReply(o, if channelId in activeVotes then activeVotes[channelId] else VoteData([], 0, "", 0))
      ensures !Decide(old(activeVotes), customId, channelId, now).Recorded? ==> activeVotes == old(activeVotes)
      ensures old(Valid()) ==> Valid()
    {
      ghost var o := Decide(activeVotes, customId, channelId, now);
      var parts := Split(customId, '_');
      if parts[0] != VoteTag {
        return None;
      }
      if channelId !in activeVotes {
        return Some(EndedNotice);
      }
      var voteData := activeVotes[channelId];
      if now > voteData.endTime {
        return Some(EndedNotice);
      }
      var index := if |parts| > 1 then Some(parts[1]) else None;
      var entry := EntryIndex(voteData.entries, index);
      if entry.None? {
        return Some(InvalidOptionNotice);
      }
      var k := entry.value;
      assert o == Recorded(k);
      var updated := ClearThenSet(voteData, k, voter);
      activeVotes := activeVotes[channelId := updated];
      reply := Some(VotedNotice(updated.entries[k].number));
    }
  }
}
