# Legal-help forum and resource library: a Dafny model

This project models the two controllers at the core of the back end.

- **Community forum.** Topics hold a forest of threaded replies. The operations are listing the topics (reply arrays become counts), fetching a topic by id, creating a topic (it goes first), adding a reply, and up- and down-voting topics and replies.
  - A reply goes either at the top level or under the first reply, in pre-order, that has the parent id.
  - Reply votes also change the first reply, in pre-order, with the given id.
- **Resource library.** An in-memory array of resource records. The operations are:
  - listing with optional category, type and free-text search filters;
  - incrementing a record's view or download counter in place;
  - resolving a record id to the address of its PDF.

Module layout:

- `outcome.dfy` (`Outcome`): `Option`, and `Result` with the not-found cases the handlers answer with 404.
- `seqs.dfy` (`Seqs`): `FirstWhere` is JavaScript's `find`/`findIndex`, and `Filter` is `filter`.
- `text.dfy` (`Text`): `trim` (the ECMAScript whitespace set), `toLowerCase` (ASCII), `includes`, and decimal rendering of numbers.
- `reply_tree.dfy` (`ReplyTree`): the reply forest.
  - Nodes are addressed by paths. `FirstMatch` is the pre-order search and `UpdateAt` the update at a path.
  - `UpdateFirst` is the one-pass recursive search-and-change that the handlers' nested closures perform.
- `community.dfy` (`Community`): topics, and a pure function per handler on the topic list. Class `Forum` holds the list and has one method per handler.
- `resources.dfy` (`Resources`): records, the listing pipeline and file resolution. Class `Catalogue` holds the record array and bumps counters in place.

Inputs the handlers take from the environment are parameters:

- the request user (`Option<User>`);
- `Date.now()` as `clock: nat`, in milliseconds;
- `new Date().toISOString()` as `now: string`.

## Model

| member | source | states |
|---|---|---|
| Seqs.FirstWhere | Backend/controllers/communityController.js:196 | `find`/`findIndex`: the result is the least index satisfying the predicate, and there is none exactly when no element satisfies it |
| Seqs.Filter | Backend/controllers/resourceController.js:39 | `filter`: the result is an order-preserving subsequence that keeps every occurrence of each element satisfying the predicate and no occurrence of any other |
| Text.TrimSpec | Backend/controllers/resourceController.js:44-45 | `trim` removes only whitespace from the two ends, and the result neither starts nor ends with whitespace |
| Text.TrimEmptyIffBlank | Backend/controllers/resourceController.js:44 | a trimmed string is empty exactly when every character of the original is whitespace |
| Text.Lower | Backend/controllers/resourceController.js:45 | `toLowerCase` keeps the length and lowers each character in place |
| Text.ContainsIsSubstring | Backend/controllers/resourceController.js:48-50 | `includes` holds exactly when the needle occurs at some position of the haystack |
| Text.ParseDecimalOfDecimal | Backend/controllers/communityController.js:287 | the decimal rendering of a number reads back as that number |
| Text.DecimalInjective | Backend/controllers/communityController.js:287 | distinct clock values give distinct decimal renderings, hence distinct reply ids |
| Text.DecimalLength | Backend/controllers/communityController.js:230 | a clock of at least 1000 renders with at least four digits, so `substr(-4)` takes exactly four |
| Text.LastChars | Backend/controllers/communityController.js:230 | `substr(-k)` is the suffix of length k, or the whole string when it is shorter |
| ReplyTree.FirstMatchCorrect | Backend/controllers/communityController.js:310-326 | the search finds the first pre-order reply with the id, and finds nothing exactly when no reply in the forest has it |
| ReplyTree.UpdateFirstIsUpdateAtFirstMatch | Backend/controllers/communityController.js:310-326 | the one-pass recursive search-and-change changes exactly the node at the first pre-order match, and reports it |
| ReplyTree.InsertUnderSpec | Backend/controllers/communityController.js:308-334 | a nested reply is found iff the parent id occurs; if not, the forest is unchanged. Otherwise the reply becomes the parent's last child, every other node keeps its content, and no other node gains children |
| ReplyTree.VoteSpec | Backend/controllers/communityController.js:481-501 | a reply vote is found iff the id occurs; it changes only the first match's score, by exactly the delta, and answers the new score. The tree shape and every other node are kept |
| ReplyTree.VoteUndo | Backend/controllers/communityController.js:484 | a vote of +d followed by one of -d on the same reply id restores the forest |
| Community.OrElse | Backend/controllers/communityController.js:9 | `x \|\| fallback` on an optional string: the value when it is given and non-empty, and the fallback when it is absent or empty |
| Community.MakeReply | Backend/controllers/communityController.js:5-14 | a seed reply has its id, content and author name, score 0 and no children. The avatar is the given image, or the default when it is absent or empty. The timestamp is the given one, or now when it is absent or empty |
| Community.ListTopics | Backend/controllers/communityController.js:118-124 | the listing has one summary per topic, and each summary's reply count is the length of the topic's top-level reply array |
| Community.ListTopicsLosesOnlyReplies | Backend/controllers/communityController.js:120-124 | a summary differs from its topic only in its replies: expanding it with the topic's reply array gives back the topic |
| Community.ListCountIsShallow | Backend/controllers/communityController.js:123 | the listed count never exceeds the number of replies in the whole thread, and equals it exactly when no top-level reply has replies |
| Community.FindTopic | Backend/controllers/communityController.js:196 | the index of the first topic with the id, and none exactly when no topic has it |
| Community.LookupTopic | Backend/controllers/communityController.js:193-203 | `getTopicById` succeeds exactly when some topic has the id, and then answers the first such topic; otherwise it answers "topic not found" |
| Community.CreateTopicSpec | Backend/controllers/communityController.js:229-246 | the new topic is first, with no replies and zero counters. Its id is the count plus one followed by the clock's last four digits; from a four-digit clock on, the id's prefix reads back as the count plus one. The author is the caller or "Anonymous User"; the avatar is the caller's image when given and non-empty, else the default. The earlier topics follow unchanged |
| Community.NewReply | Backend/controllers/communityController.js:286-305 | a new reply has id "reply-" followed by the clock, which reads back from the id, score 0 and no children. An anonymous one shows "Anonymous" with the default avatar. Otherwise it shows the caller with the caller's image (the default when absent or empty), or "Anonymous User" with the default when there is no caller |
| Community.AddReplyTopLevel | Backend/controllers/communityController.js:336-340 | without a parent id the reply built from the request (`NewReply`: id from the clock, author snapshot, zero score, no children) is appended to the topic's top-level replies and is the reply answered, and no other topic changes |
| Community.AddReplyNested | Backend/controllers/communityController.js:307-334 | with a parent id the reply is added iff the topic's own forest has that id (else "parent comment not found"), at the place InsertUnderSpec describes |
| Community.VoteTopicSpec | Backend/controllers/communityController.js:377-392 | a topic vote succeeds iff the topic exists, changes only that topic's score by the delta and answers the new score |
| Community.UpvoteThenDownvoteTopic | Backend/controllers/communityController.js:387 | an upvote followed by a downvote of the same topic restores the topic list |
| Community.VoteReplySpec | Backend/controllers/communityController.js:468-508 | a reply vote succeeds iff the addressed topic's own forest has the reply id (else "reply not found"), and changes only that topic, as VoteSpec describes |
| Community.UpvoteThenDownvoteReply | Backend/controllers/communityController.js:565 | an upvote followed by a downvote of the same reply restores the topic list |
| Community.UnknownTopic | Backend/controllers/communityController.js:276-283 | for an unknown topic id, fetching, replying and both kinds of vote all answer "topic not found" |
| Community.DistinctFromCounts | Backend/controllers/communityController.js:230 | topic ids are pairwise distinct when every id longer than four characters starts with its position from the end of the list, in decimal, and the short (seed) ids differ among themselves |
| Community.CreateTopicKeepsIdsDistinct | Backend/controllers/communityController.js:230 | creating a topic keeps topic ids pairwise distinct, provided the clock has at least four digits |
| Community.UpdatesKeepIds | Backend/controllers/communityController.js:270-345 | replying and voting never change the list of topic ids |
| Community.SameClockRepliesCollide | Backend/controllers/communityController.js:287 | two replies made in the same millisecond share an id, so a vote aimed at the later one lands on the earlier one |
| Community.Forum.constructor | Backend/controllers/communityController.js:17-86 | the store starts as exactly `SeedTopics`: the four topics with every title, category, text, author, view count, score and timestamp, topic "1" holding replies "r1-1" and "r1-2" with their own text, authors and timestamps; the ids and the store's id invariant `Valid` hold |
| Community.SeedIgnoresLoadTime | Backend/controllers/communityController.js:11-29 | every seed reply carries its own timestamp, so the seed store is the same whenever it loads |
| Community.SeedTopicVotes | Backend/controllers/communityController.js:372-437 | on the seed store, upvoting topic "1" answers 13 (seed score 12) and downvoting topic "4" answers 5 (seed score 6) |
| Community.Forum.GetTopics | Backend/controllers/communityController.js:118-124 | answers the listing of the current topics |
| Community.Forum.GetTopicById | Backend/controllers/communityController.js:193-203 | answers the lookup of the id in the current topics |
| Community.Forum.CreateTopic | Backend/controllers/communityController.js:224-246 | puts the new topic in front of the old list; from a valid store and a clock of at least four digits, the store stays valid and its topic ids stay distinct |
| Community.Forum.AddReply | Backend/controllers/communityController.js:270-340 | replaces the topic list as AddReplyTo prescribes on success, leaves it alone on a not-found answer, and answers the new reply; the id invariant is kept |
| Community.Forum.UpvoteTopic | Backend/controllers/communityController.js:372-392 | replaces the topic list as VoteTopic with +1 prescribes and answers the new score, keeps it on a not-found answer, and keeps the id invariant |
| Community.Forum.DownvoteTopic | Backend/controllers/communityController.js:417-437 | the same with -1 |
| Community.Forum.UpvoteReply | Backend/controllers/communityController.js:462-508 | replaces the topic list as VoteReply with +1 prescribes and answers the new score, keeps it on a not-found answer, and keeps the id invariant |
| Community.Forum.DownvoteReply | Backend/controllers/communityController.js:543-589 | the same with -1 |
| Resources.ListingIsOneFilter | Backend/controllers/resourceController.js:36-52 | the three successive filters equal one filter by the conjunction of the filters the query switches on |
| Resources.ListingSpec | Backend/controllers/resourceController.js:36-52 | the listing is an order-preserving selection from the store that keeps every occurrence of each record passing every active filter and no occurrence of any other |
| Resources.ListingUnfiltered | Backend/controllers/resourceController.js:38-44 | with category and type absent, empty or "all", and the search absent or blank, the listing is the whole store |
| Resources.SearchIgnoresCase | Backend/controllers/resourceController.js:45 | two search strings that agree once lower-cased select the same records |
| Resources.MatchesTermIsSubstring | Backend/controllers/resourceController.js:46-51 | a record matches iff the term occurs in its lower-cased title or description, or in its non-empty category |
| Resources.ResolveFile | Backend/controllers/resourceController.js:190-231 | "resource file not found" iff no entry has the id or the first one has no file; otherwise the address of the first entry's file, or "file URL not found" when its name has no address or an empty one |
| Resources.DownloadFlagIgnored | Backend/controllers/resourceController.js:234-240 | both values of `download` give the same target |
| Resources.FileTableMisaligned | Backend/controllers/resourceController.js:176-188 | as written, record "5" (the labour law handbook) resolves to the discrimination PDF, and record "3" resolves to no file although it has one |
| Resources.FileTableOf | Backend/controllers/resourceController.js:11-21 | the id-to-file table the records imply: one entry per record, with its id and its file name |
| Resources.ResolveThroughRecords | Backend/controllers/resourceController.js:190-231 | resolved through the records themselves, a record found by its id reaches its own file's address; no record, or no file, gives "resource file not found" |
| Resources.RecordFileRepairsLabourLaw | Backend/controllers/resourceController.js:15 | resolved through the records, record "5" reaches the labour law PDF |
| Resources.RecordFileRepairsDiscrimination | Backend/controllers/resourceController.js:13 | resolved through the records, record "3" reaches the discrimination PDF |
| Resources.Catalogue.constructor | Backend/controllers/resourceController.js:9-26 | the store is a new array holding the eleven mock records with zero counters |
| Resources.Catalogue.GetResources | Backend/controllers/resourceController.js:33-58 | answers an order-preserving selection of the current records holding exactly the wanted ones, and changes nothing |
| Resources.Catalogue.IncrementView | Backend/controllers/resourceController.js:266-281 | for an unknown id, answers "resource not found" and changes nothing. Otherwise only the first record with the id changes: its view counter goes up by one, and the new count is answered |
| Resources.Catalogue.IncrementDownload | Backend/controllers/resourceController.js:139-154 | the same for the download counter |
| Resources.Catalogue.ResourceFile | Backend/controllers/resourceController.js:170-240 | resolves an id through the records' own files |

## Left out

- Socket notifications, logging, the HTTP layer (status codes, JSON envelopes, redirects) and the 500 "server error" paths have no effect on the stored data and are not modelled. A redirect is the address it targets.
- `getCategories`, `getResourceCategories` and `getResourceById` answer constant data and are not part of this model. Neither are the database models, the lawyer seeding script or the front end.
- The clock and the ISO timestamp are parameters. Nothing models their progress, so successive calls may share a clock value (which `SameClockRepliesCollide` exhibits).
- Scores and counters are unbounded integers, not IEEE doubles.
- `toLowerCase` is modelled for ASCII letters only; other characters are kept as they are.
- Request bodies are typed: `anonymous` is a boolean and `parentId` an optional string, where an empty string counts as absent, as JavaScript truthiness makes it.
- AddReplyTo: a non-string `parentId` is not modelled. In the handler a falsy one acts as absent, and a truthy one (a number, say) never equals a string id, so the answer is "parent comment not found".
- The `upvotes` and `downvotes` arrays a new reply carries are always empty and never read, so `Reply` has no such fields.
- The reply forest is a value, and the recursive search-and-change returns a new forest. Aliasing between reply objects does not arise, because every reply is created fresh.
- Records whose `replies`, `views`, `downloads` or `voteScore` fields are absent do not arise from the handlers, so the `\|\| 0` and `Array.isArray` fallbacks are not modelled.
- The lookup of a file name in the address table is a map lookup. Inherited object properties such as `toString` are not modelled, because no file name in the table is one.
- Catalogue.ResourceFile: resolves through the records' own `file` fields, not the as-written id table. That table is kept as `Resources.GetResourceFile`, and the finding below covers the difference.

## Findings

| source | as written | input that shows it | evidently intended | confidence | as-written member | corrected member |
|---|---|---|---|---|---|---|
| Backend/controllers/resourceController.js:176-188 | the file table of `getResourceFile` pairs ids "5"–"13" with the files of catalogue records "3"–"11" | id "5": the labour law handbook (record "5", file `Labour_Law.pdf`) redirects to the discrimination PDF. Id "3" answers "resource file not found" although record "3" has a file | each record id resolves to that record's own `file` | high (not executed) | Resources.FileTableMisaligned | Resources.ResolveThroughRecords |
