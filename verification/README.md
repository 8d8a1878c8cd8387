# Friend relationships: a verified model of the friend controller

This project models the friend controller of a small social web
application (`backend/controllers/friend.js`). The controller keeps a table
of directed friend records `user -> friend`, each `pending` or `accepted`,
and has four handlers:

- **send a request** resolves the target account by id or by username. It
  refuses a repeated request and otherwise adds a pending record;
- **accept a request** cleans the request identifier it receives and checks
  it. It checks that the acting user is the addressee, flips the record to
  accepted and adds two accepted records;
- **list friends** selects the records that involve the acting user and
  splits them into an accepted list and a pending list;
- **remove a friend** deletes one accepted record between two users, in
  either direction.

The project has five modules.

- `ObjectIds` (`objectids.dfy`): the text form of record identifiers. The
  store issues identifiers from a counter, and the canonical text of an
  identifier is its lowercase hexadecimal rendering. The store reads
  hexadecimal letters in either case, so a text `Names` an identifier when
  it spells the canonical text up to case, and one identifier has several
  texts (`UpperHexNames`). `IdTextInjective` proves that two identifiers
  with the same canonical text are equal, and `NamesUnique` that a text
  names at most one identifier. That no two records of the table share a
  text needs the table invariant as well (`IndexOfIdFinds`).
- `RequestIds` (`requestids.dfy`): the cleaning of the accept handler's
  route parameter. `CleanId` is JavaScript's `trim()` followed by removing
  every `'` and `"`. `IsTrimmable` lists the ECMAScript white-space and
  line-terminator code points.
- `Friendships` (`friendships.dfy`) holds the data model: records, accounts,
  outcomes and the user directory as a list of accounts. It also holds each
  handler as a pure step from the old table to an outcome and a new table:
  `Send`, `Accept` (via `Granted`), `Remove` and `ListFriends`. The table
  has two invariants, and every handler keeps both.
  - `WellFormed` says identifiers increase strictly and stay below the
    counter, so they are unique and fresh.
  - `OnePendingPerPair` says at most one pending record goes from a given
    user to a given friend.
- `FriendStores` (`friendstore.dfy`) has the class `FriendStore`, holding
  the record table and the identifier counter. Its methods `SendRequest`,
  `AcceptRequest` (with `Grant`) and `RemoveFriend` change the table step by
  step, as the handlers do. Each method is proved to end in exactly the
  state and outcome of the matching pure step, and to keep `Valid()`, which
  is both table invariants.
- `FriendProperties` (`properties.dfy`) states what the handlers guarantee
  and what they do not, across calls.

The model follows what the controller does, not an idealised friendship
semantics. A symmetric design would check for duplicates in both
directions, delete both records of a friendship, and create the reciprocal
record only once. The controller does none of these, and the model keeps
each of the four behaviours below:

- the duplicate check looks only at `acting -> target`, so crossed requests
  coexist (`CrossedRequestsCoexist`);
- accepting never looks at the status, so accepting twice adds duplicates
  (`AcceptAcceptedAgain`);
- the second record created on acceptance is `friendReq.friend -> acting`.
  The addressee check forces `friendReq.friend` to be the acting user, so
  this record is the self-loop `acting -> acting` (`AcceptByAddressee`);
- removal deletes one record, so the reciprocal record survives and the pair
  still shows as friends (`RemoveAfterAcceptLeavesReciprocal`).

## Model

| member | source | states |
|---|---|---|
| ObjectIds.IdText | backend/controllers/friend.js:65 | the text of a record identifier is non-empty and made of lowercase hexadecimal digits |
| ObjectIds.IdTextInjective | backend/controllers/friend.js:65 | two identifiers with the same canonical text are equal |
| ObjectIds.IdTextNames | backend/controllers/friend.js:65 | the canonical text of an identifier names it |
| ObjectIds.UpperHexNames | backend/controllers/friend.js:65 | the upper-case spelling of an identifier names the same identifier, and differs from the canonical text when the last digit is a letter |
| ObjectIds.NamesUnique | backend/controllers/friend.js:65 | a text names at most one identifier, so a lookup by text is unambiguous |
| RequestIds.TrimStart | backend/controllers/friend.js:57 | the result is a suffix of the input; everything cut off is white space; the result does not start with white space |
| RequestIds.TrimEnd | backend/controllers/friend.js:57 | the result is a prefix of the input; everything cut off is white space; the result does not end with white space |
| RequestIds.Trim | backend/controllers/friend.js:57 | neither end of the result is white space; every character of the result comes from the input; every non-white-space character of the input is kept |
| RequestIds.RemoveQuotes | backend/controllers/friend.js:57 | the result holds no quote; a character is in the result exactly when it is in the input and is not a quote |
| RequestIds.CleanId | backend/controllers/friend.js:57 | the cleaned id holds no quote; it consists of input characters; every input character that is neither a quote nor white space survives |
| RequestIds.TrimUnpads | backend/controllers/friend.js:57 | trimming removes exactly the white-space padding around a text whose ends are not white space |
| RequestIds.RemoveQuotesAppend | backend/controllers/friend.js:57 | quote removal distributes over concatenation |
| RequestIds.RemoveQuotesKeepsPlain | backend/controllers/friend.js:57 | a text without quotes is left unchanged by quote removal |
| RequestIds.RemoveQuotesDropsQuotes | backend/controllers/friend.js:57 | a run of quotes is removed entirely |
| RequestIds.CleanIdUnwraps | backend/controllers/friend.js:56-57 | an identifier wrapped in any quotes, with white space outside the quotes, is recovered exactly |
| RequestIds.CleanIdKeepsClean | backend/controllers/friend.js:57 | a text with no quotes and no white space at its ends is already clean |
| RequestIds.CleanIdKeepsInnerPadding | backend/controllers/friend.js:57 | white space inside the quotes survives cleaning, because trimming runs before quote removal |
| Friendships.WellFormedIff | backend/controllers/friend.js:37-41 | the table invariant holds exactly when all identifiers are below the counter and strictly increasing along the table, so they are pairwise distinct |
| Friendships.CreateKeepsWellFormed | backend/controllers/friend.js:37-41 | appending a record with the counter's identifier keeps the invariant once the counter moves on |
| Friendships.KeepsWellFormed | backend/controllers/friend.js:74-75 | changing a record in place without touching its identifier keeps the invariant |
| Friendships.DeleteKeepsWellFormed | backend/controllers/friend.js:129-135 | deleting any record keeps the invariant |
| Friendships.FindUserById | backend/controllers/friend.js:14 | an account is found exactly when the directory has one whose id the given text names, hexadecimal letters in either case, and the one found is such an account |
| Friendships.FindUserByName | backend/controllers/friend.js:17 | an account is found exactly when the directory has one with that username, and the one found has that username |
| Friendships.ResolveTarget | backend/controllers/friend.js:12-21 | a given id is looked up by id only, and the target is the found account's own id; otherwise a given username is looked up by name; with neither there is no target |
| Friendships.FindDirected | backend/controllers/friend.js:25-28 | the duplicate query finds the first record, of any status, going from the sender to the target; none found means no record goes that way; the opposite direction is not looked at |
| Friendships.IndexOfId | backend/controllers/friend.js:65 | a record is found only when the cleaned id names its identifier, in either case; no result means the cleaned id names no record |
| Friendships.IsAcceptedBetween | backend/controllers/friend.js:129-135 | a record matches the removal filter exactly when it is accepted and its two users are the pair, as a set and with ids read in either hex case, so the order of the pair does not matter; an exact match in either direction always matches |
| Friendships.IndexOfFriendship | backend/controllers/friend.js:129-135 | the position found holds an accepted record between the two users in either direction, and no earlier record does; no result means none exists |
| Friendships.Send | backend/controllers/friend.js:12-41 | NotFound exactly when the target does not resolve; AlreadyExists exactly when a record of any status goes from the sender to the target; on failure the table is unchanged; on success exactly `(acting -> target, pending)` with the counter's identifier is appended and the counter moves on by one |
| Friendships.Granted | backend/controllers/friend.js:74-89 | the request becomes accepted; every other record stays; `acting -> requester` and `request.friend -> acting` follow, both accepted, with the next two identifiers |
| Friendships.GrantedKeepsWellFormed | backend/controllers/friend.js:74-89 | granting keeps the invariant with the counter advanced by two |
| Friendships.Accept | backend/controllers/friend.js:57-89 | InvalidId exactly when the cleaned id fails the validity check; NotFoundOrForbidden exactly when it is valid but names no record or a record addressed to someone else; on failure the table is unchanged |
| Friendships.AcceptGranted | backend/controllers/friend.js:74-89 | a valid id naming a request addressed to the acting user leads to the granted table and the counter advanced by two |
| Friendships.Remove | backend/controllers/friend.js:129-141 | NotFound exactly when no accepted record links the two users in either direction, and the table is then unchanged; on success exactly one record is gone |
| Friendships.SendKeepsWellFormed | backend/controllers/friend.js:36-41 | sending keeps the table invariant |
| Friendships.AcceptKeepsWellFormed | backend/controllers/friend.js:74-89 | accepting keeps the table invariant |
| Friendships.RemoveKeepsWellFormed | backend/controllers/friend.js:129-135 | removing keeps the table invariant |
| Friendships.SendKeepsOnePending | backend/controllers/friend.js:24-41 | sending keeps at most one pending record per ordered pair of users |
| Friendships.GrantedKeepsOnePending | backend/controllers/friend.js:74-89 | granting flips a record to accepted and appends accepted records, so it keeps at most one pending record per ordered pair |
| Friendships.AcceptKeepsOnePending | backend/controllers/friend.js:57-89 | accepting keeps at most one pending record per ordered pair |
| Friendships.RemoveKeepsOnePending | backend/controllers/friend.js:129-135 | removing keeps at most one pending record per ordered pair |
| Friendships.Involving | backend/controllers/friend.js:102-104 | the selection holds exactly the records in which the user is either party, and no more records than the table |
| Friendships.WithStatus | backend/controllers/friend.js:109-114 | the filter holds exactly the records with the given status, and no more records than its input |
| Friendships.ListFriends | backend/controllers/friend.js:102-114 | the accepted list holds exactly the accepted records involving the user; the pending list holds exactly the pending ones |
| FriendStores.FriendStore.Create | backend/controllers/friend.js:37-41 | one record is appended with the counter's identifier, the counter moves on, and the identifier invariant is kept |
| FriendStores.FriendStore.SendRequest | backend/controllers/friend.js:6-41 | the outcome and the new table are those of `Send` on the old table; both table invariants are kept |
| FriendStores.FriendStore.AcceptRequest | backend/controllers/friend.js:52-89 | the outcome and the new table are those of `Accept` on the old table; both table invariants are kept |
| FriendStores.FriendStore.Grant | backend/controllers/friend.js:74-89 | the status flip in place followed by the two creations yields `Granted` of the old table; the counter advances by two; both table invariants are kept |
| FriendStores.FriendStore.RemoveFriend | backend/controllers/friend.js:124-141 | the outcome and the new table are those of `Remove` on the old table; both table invariants are kept |
| FriendProperties.CleanIdOfIdText | backend/controllers/friend.js:57-65 | the text of a record identifier passes the cleaning unchanged |
| FriendProperties.CleanIdOfUpperHex | backend/controllers/friend.js:57-65 | the upper-case spelling of a record identifier passes the cleaning unchanged |
| FriendProperties.IndexOfIdFinds | backend/controllers/friend.js:65 | in a well-formed table, any text naming a record's identifier, in either case, finds that record and no other |
| FriendProperties.SendAddsPendingRequest | backend/controllers/friend.js:36-41 | a successful request appends exactly `(acting -> target, pending)` with the counter's identifier, and it shows as pending on both users' pages |
| FriendProperties.SecondSendConflicts | backend/controllers/friend.js:24-34 | repeating a successful request is refused as AlreadyExists and changes nothing |
| FriendProperties.CrossedRequestsCoexist | backend/controllers/friend.js:24-41 | for any table with no record between two distinct users, after `a` asks `b`, `b` can still ask `a`, and both pending records are appended |
| FriendProperties.AcceptByAddressee | backend/controllers/friend.js:65-89 | the addressee, presenting any valid id that cleans to a text naming the request, gets Ok; the request is flipped whatever its status; every other record stays; the added records are `addressee -> requester` and the self-loop `addressee -> addressee` |
| FriendProperties.AcceptUpperCaseId | backend/controllers/friend.js:57-75 | the addressee presenting the upper-case spelling of the request's id, when it passes the validity check, gets the request accepted |
| FriendProperties.OnlyAddresseeAccepts | backend/controllers/friend.js:65-71 | any other user presenting the request's id is refused with InvalidId or NotFoundOrForbidden, and the table is unchanged |
| FriendProperties.AcceptShowsOnBothPages | backend/controllers/friend.js:74-75 | after acceptance the request is on the accepted list of both the requester and the addressee |
| FriendProperties.ListedOnBothPages | backend/controllers/friend.js:102-111 | an accepted record is on the accepted list of both of its users |
| FriendProperties.AcceptAcceptedAgain | backend/controllers/friend.js:65-89 | a request that is already accepted is accepted again; every record is kept and two more are appended |
| FriendProperties.RemoveDeletesOne | backend/controllers/friend.js:129-135 | a successful removal deletes exactly one accepted record between the pair, in either direction, and keeps all others in order |
| FriendProperties.RemoveKeepsLater | backend/controllers/friend.js:129-135 | removal succeeds when an accepted record links the pair, and any record after the first such one stays |
| FriendProperties.RemoveAfterAcceptLeavesReciprocal | backend/controllers/friend.js:129-141 | after an acceptance, removing the friendship from either side leaves the reciprocal record, and both pages still list it as accepted |
| FriendProperties.SplitByStatus | backend/controllers/friend.js:109-114 | the accepted and pending filters together hold each record exactly as often as the input does |
| FriendProperties.InvolvingConcat | backend/controllers/friend.js:102-104 | selecting a user's records distributes over concatenation, so table order is kept |
| FriendProperties.WithStatusConcat | backend/controllers/friend.js:109-114 | filtering by status distributes over concatenation, so table order is kept |
| FriendProperties.ListFriendsAppend | backend/controllers/friend.js:102-114 | a record added at the end of the table goes at the end of the list for its status on the pages of its users, and changes nothing else |
| FriendProperties.ListFriendsPartition | backend/controllers/friend.js:102-114 | the accepted and pending lists are disjoint, and together they hold exactly the records involving the user |

## Left out

- HTTP handling is not modelled: request bodies and parameters, status codes, `res.json`, `res.redirect` and `res.render`. Each handler returns an `Outcome` value instead.
- The `catch` branches that answer 500 on store failures are not modelled. This includes the cast error a lookup by a malformed identifier could raise. The store is an in-memory table that does not fail.
- `.populate` enrichment of the listed records with username and email is not modelled. The lists hold the records themselves.
- `async`/`await`, concurrency and atomicity are not modelled. Each handler is one sequential step. The race between the duplicate check and the creation, and between the status flip and the two creations, is not captured.
- `mongoose.Types.ObjectId.isValid` is a library predicate whose code is not part of this model. It is the parameter `isValid: string -> bool`, and no property depends on its definition.
- The real ObjectId layout (timestamp, random bytes, 24 hex digits) is not modelled. Identifiers come from a counter and are written in hexadecimal. Distinct identifiers have distinct canonical texts, and the texts contain no quotes or white space.
- Friendships.IndexOfId: a record is found by any spelling of its hexadecimal text up to case, as the store's cast reads it. Other texts the store casts to an identifier are not modelled, such as the 12-character form read as raw bytes. The same case rule applies to account ids in `Friendships.FindUserById` and to the pair given to the remove handler in `Friendships.IsAcceptedBetween`. The record stores the found account's own id, as the handler stores `userToAdd._id`. The duplicate query `Friendships.FindDirected` compares ids exactly, because both sides are ids as the store holds them: the session user's id and the found account's id.
- FriendStores.FriendStore.RemoveFriend: `findOneAndDelete` may pick any matching record, depending on the store's order. The model fixes the first match in table order.
- FriendStores.FriendStore.SendRequest: `findOne({username})` may return any account with that name. The model takes the first in directory order. JavaScript truthiness of `friendId` and `username` is modelled with the empty string standing for an absent field.
- The `createdAt` timestamp of records is not modelled.
- Listing friends changes no state. It is the pure function `Friendships.ListFriends` and has no method in the class.
- FriendProperties.AcceptAcceptedAgain: the property that accepting the same request twice adds duplicates is stated over the table after the first acceptance. That table is described by `AcceptByAddressee` and kept well formed by `AcceptKeepsWellFormed`. No single lemma composes the two acceptances.
