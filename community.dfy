/** The forum store of the community controller: an ordered list of topics,
    newest first, each owning a reply forest (see ReplyTree). The request
    handlers become the methods of class Forum; each is specified by a pure
    function on the list of topics, and the lemmas below state what those
    functions promise. Socket notifications and logging have no effect on the
    store and are not modelled. */
module Community {
  import opened Outcome
  import opened Seqs
  import opened Text
  import opened ReplyTree

  const DefaultImage := "/lawyer.png"

  /** `req.user`: the authenticated caller, when there is one. */
  datatype User = User(name: string, profileImage: Option<string>)

  datatype Topic = Topic(
    id: string,
    title: string,
    category: string,
    content: string,
    anonymous: bool,
    author: Author,
    replies: seq<Reply>,
    views: int,
    voteScore: int,
    createdAt: string)

  /** A topic as the list endpoint shows it: `replies` is a count. */
  datatype TopicSummary = TopicSummary(
    id: string,
    title: string,
    category: string,
    content: string,
    anonymous: bool,
    author: Author,
    replies: nat,
    views: int,
    voteScore: int,
    createdAt: string)

  /** JavaScript `value || fallback` on an optional string: an absent or empty
      value is replaced by the fallback. */
  function OrElse(value: Option<string>, fallback: string): (r: string)
    ensures value.Some? && value.value != "" ==> r == value.value
    ensures !(value.Some? && value.value != "") ==> r == fallback
  {
    if value.Some? && value.value != "" then value.value else fallback
  }

  /** `makeReply`: a fresh reply with no votes and no nested replies; a missing
      image becomes the default avatar and a missing timestamp the current time
      `now`. */
  function MakeReply(id: string, content: string, userName: string, profileImage: Option<string>,
                     createdAt: Option<string>, now: string): (r: Reply)
    ensures r.id == id && r.content == content && r.author.name == userName
    ensures r.voteScore == 0 && r.replies == [] && !r.anonymous
    ensures r.author.profileImage != ""
    ensures r.author.profileImage == OrElse(profileImage, DefaultImage)
    ensures r.createdAt == OrElse(createdAt, now)
    ensures createdAt.Some? && createdAt.value != "" ==> r.createdAt == createdAt.value
    ensures (createdAt.None? || createdAt.value == "") ==> r.createdAt == now
  {
    Reply(id, content, Author(userName, OrElse(profileImage, DefaultImage)), false, 0,
          OrElse(createdAt, now), [])
  }

  // ---------------------------------------------------------------------------
  // Reading

  function Summarize(t: Topic): TopicSummary
  {
    TopicSummary(t.id, t.title, t.category, t.content, t.anonymous, t.author,
                 |t.replies|, t.views, t.voteScore, t.createdAt)
  }

  /** The topic a summary was made from, given back its reply forest. */
  function Expand(s: TopicSummary, replies: seq<Reply>): Topic
  {
    Topic(s.id, s.title, s.category, s.content, s.anonymous, s.author,
          replies, s.views, s.voteScore, s.createdAt)
  }

  /** `getTopics`: every topic, in store order, with its reply forest replaced
      by the number of top-level replies. */
  function ListTopics(topics: seq<Topic>): (view: seq<TopicSummary>)
    ensures |view| == |topics|
    ensures forall i :: 0 <= i < |topics| ==> view[i].replies == |topics[i].replies|
  {
    if topics == [] then [] else [Summarize(topics[0])] + ListTopics(topics[1..])
  }

  /** The list view loses only the reply forests: each topic is recovered
      from its summary and its own replies. */
  lemma {:induction false} ListTopicsLosesOnlyReplies(topics: seq<Topic>)
    ensures forall i :: 0 <= i < |topics| ==>
      Expand(ListTopics(topics)[i], topics[i].replies) == topics[i]
  {
    if topics != [] {
      ListTopicsLosesOnlyReplies(topics[1..]);
      forall i | 0 < i < |topics|
        ensures ListTopics(topics)[i] == ListTopics(topics[1..])[i - 1]
      {
      }
    }
  }

  /** The list count is shallow: it never exceeds the number of replies in the
      forest, and equals it exactly when no reply has nested replies. */
  lemma ListCountIsShallow(topics: seq<Topic>, i: nat)
    requires i < |topics|
    ensures ListTopics(topics)[i].replies <= CountAll(topics[i].replies)
    ensures ListTopics(topics)[i].replies == CountAll(topics[i].replies) <==>
      forall k :: 0 <= k < |topics[i].replies| ==> topics[i].replies[k].replies == []
  {
    CountAllAtLeastLength(topics[i].replies);
  }

  lemma {:induction false} CountAllAtLeastLength(forest: seq<Reply>)
    ensures CountAll(forest) >= |forest|
    ensures CountAll(forest) == |forest| <==> forall k :: 0 <= k < |forest| ==> forest[k].replies == []
    decreases forest
  {
    if forest != [] {
      CountAllAtLeastLength(forest[0].replies);
      CountAllAtLeastLength(forest[1..]);
      assert forall k :: 0 < k < |forest| ==> forest[k] == forest[1..][k - 1];
    }
  }

  /** `mockTopics.find((t) => t.id === id)`: the first topic with that id. */
  function FindTopic(topics: seq<Topic>, id: string): (r: Option<nat>)
    ensures r.Some? ==> r.value < |topics| && topics[r.value].id == id
    ensures r.Some? ==> forall j :: 0 <= j < r.value ==> topics[j].id != id
    ensures r.None? <==> forall j :: 0 <= j < |topics| ==> topics[j].id != id
  {
    FirstWhere(topics, (t: Topic) => t.id == id)
  }

  /** `getTopicById`: the first topic with the id, whole reply forest included. */
  function LookupTopic(topics: seq<Topic>, id: string): (r: Result<Topic>)
    ensures r.Ok? <==> exists j :: 0 <= j < |topics| && topics[j].id == id
    ensures r.Ok? ==> r.value.id == id
    ensures r.Ok? ==> exists j :: 0 <= j < |topics| && r.value == topics[j]
                                 && forall k :: 0 <= k < j ==> topics[k].id != id
    ensures r.NotFound? ==> r.what == TopicMissing
  {
    match FindTopic(topics, id)
    case None => NotFound(TopicMissing)
    case Some(i) => Ok(topics[i])
  }

  // ---------------------------------------------------------------------------
  // Creating topics

  /** Topic id: the topic count plus one, followed by the last four digits of
      the clock in milliseconds. */
  function NewTopicId(count: nat, clock: nat): string
  {
    Decimal(count + 1) + LastChars(Decimal(clock), 4)
  }

  /** The topic `createTopic` builds: the author is the caller (or
      "Anonymous User" when there is none), whatever `anonymous` says. */
  function NewTopic(topics: seq<Topic>, title: string, category: string, content: string,
                    anonymous: bool, user: Option<User>, clock: nat, now: string): Topic
  {
    var name := if user.Some? then user.value.name else "Anonymous User";
    var image := OrElse(if user.Some? then user.value.profileImage else None, DefaultImage);
    Topic(NewTopicId(|topics|, clock), title, category, content, anonymous,
          Author(name, image), [], 0, 0, now)
  }

  /** `createTopic`: the new topic goes first. */
  function CreateTopic(topics: seq<Topic>, title: string, category: string, content: string,
                       anonymous: bool, user: Option<User>, clock: nat, now: string): seq<Topic>
  {
    [NewTopic(topics, title, category, content, anonymous, user, clock, now)] + topics
  }

  /** The created topic is at index 0 with no replies and zero counters, the
      store grows by one and the earlier topics follow unchanged. */
  lemma CreateTopicSpec(topics: seq<Topic>, title: string, category: string, content: string,
                        anonymous: bool, user: Option<User>, clock: nat, now: string)
    ensures var r := CreateTopic(topics, title, category, content, anonymous, user, clock, now);
      |r| == |topics| + 1 && r[1..] == topics
      && r[0].replies == [] && r[0].views == 0 && r[0].voteScore == 0
      && r[0].title == title && r[0].category == category && r[0].content == content
      && r[0].anonymous == anonymous && r[0].createdAt == now
      && r[0].author.name == (if user.Some? then user.value.name else "Anonymous User")
      && r[0].author.profileImage ==
           (if user.Some? && Given(user.value.profileImage) then user.value.profileImage.value else DefaultImage)
      && r[0].id == NewTopicId(|topics|, clock)
      && ListTopics(r)[0].replies == 0
    ensures var r := CreateTopic(topics, title, category, content, anonymous, user, clock, now);
      clock >= 1000 ==>
        |r[0].id| > 4 && r[0].id[..|r[0].id| - 4] == Decimal(|topics| + 1)
        && ParseDecimal(r[0].id[..|r[0].id| - 4]) == |topics| + 1
  {
    ParseDecimalOfDecimal(|topics| + 1);
    if clock >= 1000 {
      DecimalLength(clock);
      var prefix := Decimal(|topics| + 1);
      var id := prefix + LastChars(Decimal(clock), 4);
      assert id[..|id| - 4] == prefix;
    }
  }

  // ---------------------------------------------------------------------------
  // Replies

  /** A parameter that JavaScript treats as present: given and non-empty. */
  predicate Given(s: Option<string>)
  {
    s.Some? && s.value != ""
  }

  /** The reply `addReply` builds: id "reply-" followed by the clock in
      milliseconds; an anonymous reply shows "Anonymous" and the default
      avatar, otherwise the caller (or "Anonymous User" when there is none). */
  function NewReply(content: string, anonymous: bool, user: Option<User>, clock: nat, now: string): (r: Reply)
    ensures r.content == content && r.anonymous == anonymous && r.createdAt == now
    ensures r.voteScore == 0 && r.replies == []
    ensures anonymous ==> r.author == Author("Anonymous", DefaultImage)
    ensures !anonymous && user.None? ==> r.author == Author("Anonymous User", DefaultImage)
    ensures !anonymous && user.Some? ==> r.author.name == user.value.name
    ensures !anonymous && user.Some? ==> r.author.profileImage == OrElse(user.value.profileImage, DefaultImage)
    ensures r.author.profileImage != ""
    ensures r.id == "reply-" + Decimal(clock)
    ensures |r.id| > 6 && ParseDecimal(r.id[6..]) == clock
  {
    ParseDecimalOfDecimal(clock);
    var name := if anonymous then "Anonymous"
                else if user.Some? then user.value.name
                else "Anonymous User";
    var image := if anonymous then DefaultImage
                 else OrElse(if user.Some? then user.value.profileImage else None, DefaultImage);
    Reply("reply-" + Decimal(clock), content, Author(name, image), anonymous, 0, now, [])
  }

  /** `addReply`: with no parent id the reply is appended to the topic's
      top-level replies; otherwise it goes under the first pre-order reply of
      that topic with the parent id. Gives the new store and the reply. */
  function AddReplyTo(topics: seq<Topic>, topicId: string, content: string, parentId: Option<string>,
                    anonymous: bool, user: Option<User>, clock: nat, now: string): Result<(seq<Topic>, Reply)>
  {
    match FindTopic(topics, topicId)
    case None => NotFound(TopicMissing)
    case Some(i) =>
      var t := topics[i];
      var r := NewReply(content, anonymous, user, clock, now);
      if Given(parentId) then
        var (forest, found) := InsertUnder(t.replies, parentId.value, r);
        if found then Ok((topics[i := t.(replies := forest)], r))
        else NotFound(ParentCommentMissing)
      else
        Ok((topics[i := t.(replies := t.replies + [r])], r))
  }

  /** Without a parent id the reply lands last among the topic's top-level
      replies, and no other topic changes. */
  lemma AddReplyTopLevel(topics: seq<Topic>, topicId: string, content: string, parentId: Option<string>,
                         anonymous: bool, user: Option<User>, clock: nat, now: string)
    requires !Given(parentId)
    requires FindTopic(topics, topicId).Some?
    ensures var i := FindTopic(topics, topicId).value;
      var res := AddReplyTo(topics, topicId, content, parentId, anonymous, user, clock, now);
      res.Ok?
      && res.value.1 == NewReply(content, anonymous, user, clock, now)
      && |res.value.0| == |topics|
      && res.value.0[i].replies == topics[i].replies + [res.value.1]
      && res.value.0[i] == topics[i].(replies := res.value.0[i].replies)
      && (forall j :: 0 <= j < |topics| && j != i ==> res.value.0[j] == topics[j])
      && res.value.1.voteScore == 0 && res.value.1.replies == []
      && ListTopics(res.value.0)[i].replies == |topics[i].replies| + 1
  {
  }

  /** With a parent id the reply goes under the first pre-order match inside
      the addressed topic's own forest (as InsertUnderSpec describes); when
      that forest has no such reply the answer is NotFound, even if another
      topic has one. */
  lemma AddReplyNested(topics: seq<Topic>, topicId: string, content: string, parentId: Option<string>,
                       anonymous: bool, user: Option<User>, clock: nat, now: string)
    requires Given(parentId)
    requires FindTopic(topics, topicId).Some?
    ensures var i := FindTopic(topics, topicId).value;
      var res := AddReplyTo(topics, topicId, content, parentId, anonymous, user, clock, now);
      var child := NewReply(content, anonymous, user, clock, now);
      (res.Ok? <==> HasId(topics[i].replies, parentId.value))
      && (res.NotFound? ==> res.what == ParentCommentMissing)
      && (res.Ok? ==>
            res.value.1 == child
            && res.value.0 == topics[i := topics[i].(replies := InsertUnder(topics[i].replies, parentId.value, child).0)])
  {
    var i := FindTopic(topics, topicId).value;
    InsertUnderSpec(topics[i].replies, parentId.value, NewReply(content, anonymous, user, clock, now));
  }

  // ---------------------------------------------------------------------------
  // Votes

  /** `upvoteTopic` (delta 1) / `downvoteTopic` (delta -1): change the first
      matching topic's score and give the new score. */
  function VoteTopic(topics: seq<Topic>, topicId: string, delta: int): Result<(seq<Topic>, int)>
  {
    match FindTopic(topics, topicId)
    case None => NotFound(TopicMissing)
    case Some(i) =>
      var t := topics[i].(voteScore := topics[i].voteScore + delta);
      Ok((topics[i := t], t.voteScore))
  }

  /** A topic vote changes only that topic's score, by exactly `delta`. */
  lemma VoteTopicSpec(topics: seq<Topic>, topicId: string, delta: int)
    ensures VoteTopic(topics, topicId, delta).Ok? <==> exists j :: 0 <= j < |topics| && topics[j].id == topicId
    ensures VoteTopic(topics, topicId, delta).NotFound? ==> VoteTopic(topics, topicId, delta).what == TopicMissing
    ensures VoteTopic(topics, topicId, delta).Ok? ==>
      var i := FindTopic(topics, topicId).value;
      var (after, score) := VoteTopic(topics, topicId, delta).value;
      score == topics[i].voteScore + delta
      && |after| == |topics|
      && after[i] == topics[i].(voteScore := score)
      && forall j :: 0 <= j < |topics| && j != i ==> after[j] == topics[j]
  {
  }

  /** An upvote followed by a downvote restores the topic list exactly. */
  lemma UpvoteThenDownvoteTopic(topics: seq<Topic>, topicId: string)
    requires VoteTopic(topics, topicId, 1).Ok?
    ensures var (after, _) := VoteTopic(topics, topicId, 1).value;
      VoteTopic(after, topicId, -1) == Ok((topics, topics[FindTopic(topics, topicId).value].voteScore))
  {
    var i := FindTopic(topics, topicId).value;
    var (after, _) := VoteTopic(topics, topicId, 1).value;
    assert FindTopic(after, topicId) == Some(i) by {
      assert forall j :: 0 <= j < |topics| ==> after[j].id == topics[j].id;
    }
    assert after[i := after[i].(voteScore := after[i].voteScore - 1)] == topics;
  }

  /** `upvoteReply` (delta 1) / `downvoteReply` (delta -1): change the score of
      the first pre-order reply with the id inside the addressed topic. */
  function VoteReply(topics: seq<Topic>, topicId: string, replyId: string, delta: int): Result<(seq<Topic>, int)>
  {
    match FindTopic(topics, topicId)
    case None => NotFound(TopicMissing)
    case Some(i) =>
      var (forest, score) := Vote(topics[i].replies, replyId, delta);
      if score.None? then NotFound(ReplyMissing)
      else Ok((topics[i := topics[i].(replies := forest)], score.value))
  }

  /** A reply vote answers NotFound unless the addressed topic's own forest
      has the reply id; otherwise it changes that topic's forest as VoteSpec
      describes and leaves every other topic alone. */
  lemma VoteReplySpec(topics: seq<Topic>, topicId: string, replyId: string, delta: int)
    requires FindTopic(topics, topicId).Some?
    ensures var i := FindTopic(topics, topicId).value;
      var res := VoteReply(topics, topicId, replyId, delta);
      (res.Ok? <==> HasId(topics[i].replies, replyId))
      && (res.NotFound? ==> res.what == ReplyMissing)
      && (res.Ok? ==>
            var (forest, score) := Vote(topics[i].replies, replyId, delta);
            score == Some(res.value.1)
            && res.value.0 == topics[i := topics[i].(replies := forest)])
  {
    var i := FindTopic(topics, topicId).value;
    VoteSpec(topics[i].replies, replyId, delta);
  }

  /** Changing one topic without touching its id leaves every topic where
      FindTopic finds it. */
  lemma FindTopicAfterUpdate(topics: seq<Topic>, i: nat, t: Topic, id: string)
    requires i < |topics| && t.id == topics[i].id
    ensures FindTopic(topics[i := t], id) == FindTopic(topics, id)
  {
    var after := topics[i := t];
    match FindTopic(topics, id)
    case None =>
    case Some(k) =>
      FirstWhereAt(after, (x: Topic) => x.id == id, k);
  }

  /** Reply ids are the clock in milliseconds, so two replies made in the same
      millisecond share an id: an upvote aimed at the later one lands on the
      earlier one, which comes first in pre-order. */
  lemma SameClockRepliesCollide(topics: seq<Topic>, topicId: string, user: Option<User>,
                                clock: nat, now: string)
    requires FindTopic(topics, topicId).Some?
    requires topics[FindTopic(topics, topicId).value].replies == []
    ensures var i := FindTopic(topics, topicId).value;
      var first := AddReplyTo(topics, topicId, "a", None, false, user, clock, now);
      first.Ok?
      && var second := AddReplyTo(first.value.0, topicId, "b", None, false, user, clock, now);
      second.Ok? && second.value.1.id == first.value.1.id
      && var vote := VoteReply(second.value.0, topicId, second.value.1.id, 1);
      vote.Ok?
      && vote.value.0[i].replies[0].content == "a" && vote.value.0[i].replies[0].voteScore == 1
      && vote.value.0[i].replies[1].content == "b" && vote.value.0[i].replies[1].voteScore == 0
  {
    var i := FindTopic(topics, topicId).value;
    var first := AddReplyTo(topics, topicId, "a", None, false, user, clock, now);
    FindTopicAfterUpdate(topics, i, first.value.0[i], topicId);
    var second := AddReplyTo(first.value.0, topicId, "b", None, false, user, clock, now);
    FindTopicAfterUpdate(first.value.0, i, second.value.0[i], topicId);
    var forest := second.value.0[i].replies;
    assert forest == [first.value.1, second.value.1];
  }

  /** An upvote of a reply followed by a downvote restores the topic list. */
  lemma UpvoteThenDownvoteReply(topics: seq<Topic>, topicId: string, replyId: string)
    requires VoteReply(topics, topicId, replyId, 1).Ok?
    ensures VoteReply(VoteReply(topics, topicId, replyId, 1).value.0, topicId, replyId, -1).Ok?
    ensures VoteReply(VoteReply(topics, topicId, replyId, 1).value.0, topicId, replyId, -1).value.0 == topics
  {
    var i := FindTopic(topics, topicId).value;
    var after := VoteReply(topics, topicId, replyId, 1).value.0;
    assert FindTopic(after, topicId) == Some(i) by {
      assert forall j :: 0 <= j < |topics| ==> after[j].id == topics[j].id;
    }
    VoteUndo(topics[i].replies, replyId, 1);
    assert after[i].replies == Vote(topics[i].replies, replyId, 1).0;
    assert after[i := after[i].(replies := topics[i].replies)] == topics;
  }

  // ---------------------------------------------------------------------------
  // Unknown topics

  /** Every handler given an unknown topic id answers "Topic not found" and
      leaves the store as it was. */
  lemma UnknownTopic(topics: seq<Topic>, topicId: string, content: string, parentId: Option<string>,
                     anonymous: bool, user: Option<User>, clock: nat, now: string, replyId: string, delta: int)
    requires forall j :: 0 <= j < |topics| ==> topics[j].id != topicId
    ensures LookupTopic(topics, topicId) == NotFound(TopicMissing)
    ensures AddReplyTo(topics, topicId, content, parentId, anonymous, user, clock, now) == NotFound(TopicMissing)
    ensures VoteTopic(topics, topicId, delta) == NotFound(TopicMissing)
    ensures VoteReply(topics, topicId, replyId, delta) == NotFound(TopicMissing)
  {
  }

  // ---------------------------------------------------------------------------
  // Topic ids

  function TopicIds(topics: seq<Topic>): seq<string>
  {
    seq(|topics|, i requires 0 <= i < |topics| => topics[i].id)
  }

  /** Every id longer than four characters is the decimal position counted
      from the end of the list (the count when it was made, plus one)
      followed by four clock digits. */
  ghost predicate IdsFromCounts(topics: seq<Topic>)
  {
    forall i :: 0 <= i < |topics| && |topics[i].id| > 4 ==>
      topics[i].id[..|topics[i].id| - 4] == Decimal(|topics| - i)
  }

  ghost predicate ShortIdsDistinct(topics: seq<Topic>)
  {
    forall i, j :: 0 <= i < j < |topics| && |topics[i].id| <= 4 && |topics[j].id| <= 4 ==>
      topics[i].id != topics[j].id
  }

  ghost predicate IdsDistinct(topics: seq<Topic>)
  {
    forall i, j :: 0 <= i < j < |topics| ==> topics[i].id != topics[j].id
  }

  lemma DistinctFromCounts(topics: seq<Topic>)
    requires IdsFromCounts(topics) && ShortIdsDistinct(topics)
    ensures IdsDistinct(topics)
  {
    forall i, j | 0 <= i < j < |topics|
      ensures topics[i].id != topics[j].id
    {
      if |topics[i].id| > 4 && topics[i].id == topics[j].id {
        DecimalInjective(|topics| - i, |topics| - j);
      }
    }
  }

  /** With a clock past the first second of the epoch (so that it has four
      digits to take), creating a topic keeps every topic id distinct: the
      count part grows by one with each creation. */
  lemma CreateTopicKeepsIdsDistinct(topics: seq<Topic>, title: string, category: string, content: string,
                                    anonymous: bool, user: Option<User>, clock: nat, now: string)
    requires IdsFromCounts(topics) && ShortIdsDistinct(topics)
    requires clock >= 1000
    ensures var r := CreateTopic(topics, title, category, content, anonymous, user, clock, now);
      IdsFromCounts(r) && ShortIdsDistinct(r) && IdsDistinct(r)
  {
    var r := CreateTopic(topics, title, category, content, anonymous, user, clock, now);
    DecimalLength(clock);
    var id := r[0].id;
    assert |id| > 4 && id[..|id| - 4] == Decimal(|r|);
    assert forall i :: 0 < i < |r| ==> r[i] == topics[i - 1];
    DistinctFromCounts(r);
  }

  /** Replies and votes never touch topic ids. */
  lemma UpdatesKeepIds(topics: seq<Topic>, topicId: string, content: string, parentId: Option<string>,
                       anonymous: bool, user: Option<User>, clock: nat, now: string, replyId: string, delta: int)
    ensures var r := AddReplyTo(topics, topicId, content, parentId, anonymous, user, clock, now);
      r.Ok? ==> TopicIds(r.value.0) == TopicIds(topics)
    ensures var r := VoteTopic(topics, topicId, delta);
      r.Ok? ==> TopicIds(r.value.0) == TopicIds(topics)
    ensures var r := VoteReply(topics, topicId, replyId, delta);
      r.Ok? ==> TopicIds(r.value.0) == TopicIds(topics)
  {
  }

  // The prose of the initial topics and replies.
  const HeatingQuestion: string :=
    "My apartment heating has been broken for two weeks now and temperatures are"
    + " dropping. I've contacted my landlord multiple times but they keep saying"
    + " they'll 'get to it'. What are my legal options?"
  const WithholdRentAdvice: string :=
    "You may have a right to withhold rent or repair and deduct in many"
    + " jurisdictions. Check your local tenant rights."
  const DocumentationAdvice: string :=
    "Document every communication with your landlord and the dates the heating was"
    + " out. This will help if you need to go to court."
  const CustodyQuestion: string :=
    "I have joint custody of my children with my ex-spouse. I received a job offer"
    + " in another state that would significantly improve our financial situation. How"
    + " can I legally move with my children?"
  const OvertimeQuestion: string :=
    "I've been working 50+ hours weekly for the past three months, but my employer"
    + " hasn't paid any overtime. What kind of documentation should I gather to"
    + " support my case?"
  const DepositStory: string :=
    "Just wanted to share my success story of winning my security deposit case in"
    + " small claims court. Happy to answer questions about the process!"

  /** The two replies of seed topic "1"; both carry their own timestamp. */
  function SeedReplies(now: string): seq<Reply>
  {
    [ MakeReply("r1-1", WithholdRentAdvice, "Legal Helper", Some(DefaultImage),
                Some("2023-10-26T10:00:00Z"), now),
      MakeReply("r1-2", DocumentationAdvice, "Tenant Advocate", Some(DefaultImage),
                Some("2023-10-26T14:20:00Z"), now) ]
  }

  const SeedTopic2: Topic :=
    Topic("2", "How does child custody work with an out-of-state move?", "Family Law",
          CustodyQuestion, false, Author("Parent In Need", DefaultImage), [],
          128, 8, "2023-10-24T09:15:00Z")
  const SeedTopic3: Topic :=
    Topic("3", "Employer not paying overtime, what documentation do I need?", "Employment Law",
          OvertimeQuestion, false, Author("Worker Rights", DefaultImage), [],
          302, 15, "2023-10-20T16:45:00Z")
  const SeedTopic4: Topic :=
    Topic("4", "Success story: Won my security deposit case in small claims!", "Small Claims",
          DepositStory, false, Author("Victorious Renter", DefaultImage), [],
          253, 6, "2023-10-22T11:20:00Z")

  /** `mockTopics`: the four topics the store starts with, newest-numbered
      last; `now` is the time `makeReply` would fall back on. */
  function SeedTopics(now: string): seq<Topic>
  {
    [ Topic("1", "Landlord won't fix heating, what are my options?", "Housing & Tenant Issues",
            HeatingQuestion, false, Author("John Smith", DefaultImage), SeedReplies(now),
            234, 12, "2023-10-25T14:32:00Z"),
      SeedTopic2, SeedTopic3, SeedTopic4 ]
  }

  /** Every seed reply has its own timestamp, so the seed does not depend on
      the load time. */
  lemma SeedIgnoresLoadTime(now: string, later: string)
    ensures SeedTopics(now) == SeedTopics(later)
  {
    assert SeedReplies(now) == SeedReplies(later);
  }

  /** Upvoting topic "1" of a fresh store answers 13, one above its seed score
      of 12, and downvoting topic "4" answers 5. */
  lemma SeedTopicVotes(now: string)
    ensures VoteTopic(SeedTopics(now), "1", 1).Ok? && VoteTopic(SeedTopics(now), "1", 1).value.1 == 13
    ensures VoteTopic(SeedTopics(now), "4", -1).Ok? && VoteTopic(SeedTopics(now), "4", -1).value.1 == 5
  {
    var seed := SeedTopics(now);
    FirstWhereAt(seed, (t: Topic) => t.id == "1", 0);
    FirstWhereAt(seed, (t: Topic) => t.id == "4", 3);
  }

  // ---------------------------------------------------------------------------
  // The stateful store

  /** The id invariant depends on the topic ids alone. */
  lemma KeepsValid(before: seq<Topic>, after: seq<Topic>)
    requires TopicIds(after) == TopicIds(before)
    ensures IdsFromCounts(before) ==> IdsFromCounts(after)
    ensures ShortIdsDistinct(before) ==> ShortIdsDistinct(after)
  {
    assert |after| == |TopicIds(after)|;
    assert forall i :: 0 <= i < |after| ==> after[i].id == TopicIds(after)[i] == before[i].id;
  }

  /** `mockTopics` and the handlers that read and update it in place. */
  class Forum {
    var topics: seq<Topic>

    /** The store's invariant: created ids carry their position from the end of
        the list, and the seed ids differ, so all topic ids are distinct. */
    ghost predicate Valid()
      reads this
    {
      IdsFromCounts(topics) && ShortIdsDistinct(topics)
    }

    /** `mockTopics` as the module loads it. `now` is the load time, which
        `makeReply` would use for a missing timestamp (all seed replies have
        one). */
    constructor (now: string)
      ensures topics == SeedTopics(now)
      ensures |topics| == 4
      ensures topics[0].id == "1" && topics[1].id == "2" && topics[2].id == "3" && topics[3].id == "4"
      ensures |topics[0].replies| == 2 && topics[0].replies[0].id == "r1-1" && topics[0].replies[1].id == "r1-2"
      ensures forall i :: 0 <= i < 4 ==> topics[i].replies == [] || i == 0
      ensures Valid()
    {
      topics := SeedTopics(now);
    }

    method GetTopics() returns (view: seq<TopicSummary>)
      ensures view == ListTopics(topics)
    {
      view := ListTopics(topics);
    }

    method GetTopicById(id: string) returns (r: Result<Topic>)
      ensures r == LookupTopic(topics, id)
    {
      r := LookupTopic(topics, id);
    }

    method CreateTopic(title: string, category: string, content: string, anonymous: bool,
                       user: Option<User>, clock: nat, now: string) returns (t: Topic)
      modifies this
      ensures t == NewTopic(old(topics), title, category, content, anonymous, user, clock, now)
      ensures topics == [t] + old(topics)
      ensures old(Valid()) && clock >= 1000 ==> Valid() && IdsDistinct(topics)
    {
      if Valid() && clock >= 1000 {
        CreateTopicKeepsIdsDistinct(topics, title, category, content, anonymous, user, clock, now);
      }
      t := NewTopic(topics, title, category, content, anonymous, user, clock, now);
      topics := [t] + topics;
    }

    method AddReply(topicId: string, content: string, parentId: Option<string>, anonymous: bool,
                    user: Option<User>, clock: nat, now: string) returns (r: Result<Reply>)
      modifies this
      ensures var res := AddReplyTo(old(topics), topicId, content, parentId, anonymous, user, clock, now);
        match res
        case Ok((after, reply)) => topics == after && r == Ok(reply)
        case NotFound(what) => topics == old(topics) && r == NotFound(what)
      ensures old(Valid()) ==> Valid()
    {
      match AddReplyTo(topics, topicId, content, parentId, anonymous, user, clock, now)
      case Ok((after, reply)) =>
        KeepsValid(topics, after);
        topics := after;
        r := Ok(reply);
      case NotFound(what) =>
        r := NotFound(what);
    }

    /** `upvoteTopic`. */
    method UpvoteTopic(topicId: string) returns (r: Result<int>)
      modifies this
      ensures match VoteTopic(old(topics), topicId, 1)
        case Ok((after, score)) => topics == after && r == Ok(score)
        case NotFound(what) => topics == old(topics) && r == NotFound(what)
      ensures old(Valid()) ==> Valid()
    {
      match VoteTopic(topics, topicId, 1)
      case Ok((after, score)) =>
        KeepsValid(topics, after);
        topics := after;
        r := Ok(score);
      case NotFound(what) =>
        r := NotFound(what);
    }

    /** `downvoteTopic`. */
    method DownvoteTopic(topicId: string) returns (r: Result<int>)
      modifies this
      ensures match VoteTopic(old(topics), topicId, -1)
        case Ok((after, score)) => topics == after && r == Ok(score)
        case NotFound(what) => topics == old(topics) && r == NotFound(what)
      ensures old(Valid()) ==> Valid()
    {
      match VoteTopic(topics, topicId, -1)
      case Ok((after, score)) =>
        KeepsValid(topics, after);
        topics := after;
        r := Ok(score);
      case NotFound(what) =>
        r := NotFound(what);
    }

    /** `upvoteReply`. */
    method UpvoteReply(topicId: string, replyId: string) returns (r: Result<int>)
      modifies this
      ensures match VoteReply(old(topics), topicId, replyId, 1)
        case Ok((after, score)) => topics == after && r == Ok(score)
        case NotFound(what) => topics == old(topics) && r == NotFound(what)
      ensures old(Valid()) ==> Valid()
    {
      match VoteReply(topics, topicId, replyId, 1)
      case Ok((after, score)) =>
        KeepsValid(topics, after);
        topics := after;
        r := Ok(score);
      case NotFound(what) =>
        r := NotFound(what);
    }

    /** `downvoteReply`. */
    method DownvoteReply(topicId: string, replyId: string) returns (r: Result<int>)
      modifies this
      ensures match VoteReply(old(topics), topicId, replyId, -1)
        case Ok((after, score)) => topics == after && r == Ok(score)
        case NotFound(what) => topics == old(topics) && r == NotFound(what)
      ensures old(Valid()) ==> Valid()
    {
      match VoteReply(topics, topicId, replyId, -1)
      case Ok((after, score)) =>
        KeepsValid(topics, after);
        topics := after;
        r := Ok(score);
      case NotFound(what) =>
        r := NotFound(what);
    }
  }
}
