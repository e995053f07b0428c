/**
 * The vote table of app.py: the counts stored in votes.json, the table used
 * when that file does not exist yet, and what /submit-vote and
 * /preview-wordcloud do to the counts.
 *
 * Reading and writing votes.json are left to the caller: the stored table is
 * a parameter (None when the file does not exist) and the table to write
 * back is part of the reply.
 */
module Votes {
  import opened Wrappers

  /** A vote table: key to count. */
  type Counts = map<string, int>

  /** The key that counts accepted ballots rather than votes for an item. */
  const TotalVotesKey := "totalvotes"

  /** The twelve items on the grid. */
  const ItemKeys: seq<string> := [
    "item1", "item2", "item3", "item4", "item5", "item6",
    "item7", "item8", "item9", "item10", "item11", "item12"
  ]

  /** The status and message of a request that does not name exactly three items. */
  const BadRequestStatus: nat := 400
  const MustSelectThree := "Must select exactly 3 items"

  /** Where a successful vote sends the browser (`url_for('wordcloud')`). */
  const WordcloudPage := "/wordcloud"

  /** The table used when votes.json does not exist: every item and the ballot count at zero. */
  function DefaultVotes(): (votes: Counts)
    ensures forall k :: k in votes <==> k in ItemKeys || k == TotalVotesKey
    ensures forall k :: k in votes ==> votes[k] == 0
  {
    map[
      "item1" := 0, "item2" := 0, "item3" := 0, "item4" := 0,
      "item5" := 0, "item6" := 0, "item7" := 0, "item8" := 0,
      "item9" := 0, "item10" := 0, "item11" := 0, "item12" := 0,
      "totalvotes" := 0
    ]
  }

  /** The current table: the stored one, or the default when there is no file. */
  function LoadVotes(stored: Option<Counts>): Counts {
    stored.GetOr(DefaultVotes())
  }

  /**
   * The increment loop shared by submit_vote and preview_wordcloud: each
   * listed key that is in the table gains one per occurrence; keys not in
   * the table are skipped and never added.
   */
  method AddSelections(votes: Counts, items: seq<string>) returns (r: Counts)
    ensures r.Keys == votes.Keys
    ensures forall k :: k in votes ==> r[k] == votes[k] + multiset(items)[k]
  {
    r := votes;
    for i := 0 to |items|
      invariant r.Keys == votes.Keys
      invariant forall k :: k in votes ==> r[k] == votes[k] + multiset(items[..i])[k]
    {
      var itemKey := items[i];
      if itemKey in r {
        r := r[itemKey := r[itemKey] + 1];
      }
      assert items[..i + 1] == items[..i] + [itemKey];
    }
    assert items[..|items|] == items;
  }

  /** The reply of /submit-vote: the table written back and the page to go to, or a rejection. */
  datatype VoteReply =
    | VoteRecorded(votes: Counts, redirect: string)
    | VoteRejected(status: nat, error: string)

  /**
   * submit_vote: reject anything but three items before the table is read;
   * otherwise add the selections and count one more ballot.
   */
  method SubmitVote(items: seq<string>, stored: Option<Counts>) returns (reply: VoteReply)
    ensures reply.VoteRejected? <==> |items| != 3
    ensures reply.VoteRejected? ==> reply.status == BadRequestStatus && reply.error == MustSelectThree
    ensures reply.VoteRecorded? ==>
      var base := LoadVotes(stored);
      && reply.redirect == WordcloudPage
      && reply.votes.Keys == base.Keys + {TotalVotesKey}
      && (forall k :: k in base && k != TotalVotesKey ==> reply.votes[k] == base[k] + multiset(items)[k])
      && reply.votes[TotalVotesKey]
         == (if TotalVotesKey in base then base[TotalVotesKey] + multiset(items)[TotalVotesKey] else 0) + 1
    ensures reply.VoteRecorded? && TotalVotesKey !in items ==>
      var base := LoadVotes(stored);
      reply.votes[TotalVotesKey] == (if TotalVotesKey in base then base[TotalVotesKey] else 0) + 1
  {
    if |items| != 3 {
      return VoteRejected(BadRequestStatus, MustSelectThree);
    }
    var votes := LoadVotes(stored);
    votes := AddSelections(votes, items);
    var total := if TotalVotesKey in votes then votes[TotalVotesKey] else 0;
    votes := votes[TotalVotesKey := total + 1];
    reply := VoteRecorded(votes, WordcloudPage);
  }

  /** The reply of /preview-wordcloud: the temporary table the images are drawn from, or a rejection. */
  datatype PreviewReply =
    | PreviewDrawn(tempVotes: Counts)
    | PreviewRejected(status: nat, error: string)

  /**
   * preview_wordcloud: the same check and the same increments as a vote, on
   * a copy; the ballot count is not bumped and nothing is written back.
   */
  method PreviewWordcloud(items: seq<string>, stored: Option<Counts>) returns (reply: PreviewReply)
    ensures reply.PreviewRejected? <==> |items| != 3
    ensures reply.PreviewRejected? ==> reply.status == BadRequestStatus && reply.error == MustSelectThree
    ensures reply.PreviewDrawn? ==>
      var base := LoadVotes(stored);
      && reply.tempVotes.Keys == base.Keys
      && (forall k :: k in base ==> reply.tempVotes[k] == base[k] + multiset(items)[k])
    ensures reply.PreviewDrawn? && TotalVotesKey !in items && TotalVotesKey in LoadVotes(stored) ==>
      reply.tempVotes[TotalVotesKey] == LoadVotes(stored)[TotalVotesKey]
  {
    if |items| != 3 {
      return PreviewRejected(BadRequestStatus, MustSelectThree);
    }
    var votes := LoadVotes(stored);
    var tempVotes := AddSelections(votes, items);
    reply := PreviewDrawn(tempVotes);
  }
}
