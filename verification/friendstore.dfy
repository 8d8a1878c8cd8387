/** The friend collection as a mutable store. Each handler method changes the
    table the way the controller does, step by step (look up, check, flip a
    status in place, append, delete), and is proved to reach exactly the
    state and outcome of the matching pure step in `Friendships`. */
module FriendStores {
  import opened RequestIds
  import opened Friendships

  class FriendStore {
    /** The friend records, in insertion order. */
    var records: seq<FriendRecord>
    /** The identifier the next created record receives. */
    var nextId: nat

    /** Identifiers are fresh and increasing, and pending requests are
        unique per ordered pair. */
    ghost predicate Valid()
      reads this
    {
      WellFormed(records, nextId) && OnePendingPerPair(records)
    }

    constructor ()
      ensures Valid()
      ensures records == [] && nextId == 0
    {
      records := [];
      nextId := 0;
    }

    /** Appends one record with a fresh identifier. The caller keeps pending
        requests unique. */
    method Create(user: UserId, friend: UserId, status: Status)
      requires WellFormed(records, nextId)
      modifies this
      ensures WellFormed(records, nextId)
      ensures records == old(records) + [FriendRecord(old(nextId), user, friend, status)]
      ensures nextId == old(nextId) + 1
    {
      CreateKeepsWellFormed(records, nextId, FriendRecord(nextId, user, friend, status));
      records := records + [FriendRecord(nextId, user, friend, status)];
      nextId := nextId + 1;
    }

    /** The send-request handler. */
    method SendRequest(dir: seq<Account>, acting: UserId, friendId: string, username: string)
      returns (outcome: Outcome)
      requires Valid()
      modifies this
      ensures Valid()
      ensures Step(outcome, records, nextId) == Send(old(records), old(nextId), dir, acting, friendId, username)
    {
      SendKeepsOnePending(records, nextId, dir, acting, friendId, username);
      var userToAdd := ResolveTarget(dir, friendId, username);
      if userToAdd.None? {
        return NotFound;
      }
      var existing := FindDirected(records, acting, userToAdd.value);
      if existing.Some? {
        return AlreadyExists;
      }
      Create(acting, userToAdd.value, Pending);
      outcome := Ok;
    }

    /** The accept-request handler; `isValid` is the store's identifier
        check. */
    method AcceptRequest(acting: UserId, requestId: string, isValid: string -> bool)
      returns (outcome: Outcome)
      requires Valid()
      modifies this
      ensures Valid()
      ensures Step(outcome, records, nextId) == Accept(old(records), old(nextId), acting, requestId, isValid)
    {
      var cleaned := CleanId(requestId);
      if !isValid(cleaned) {
        return InvalidId;
      }
      var found := IndexOfId(records, cleaned);
      if found.None? || records[found.value].friend != acting {
        return NotFoundOrForbidden;
      }
      AcceptGranted(records, nextId, acting, requestId, isValid, found.value);
      Grant(found.value, acting);
      outcome := Ok;
    }

    /** The effect of a granted acceptance, step by step as the handler
        does it: the status flips in place, then the two accepted records
        are created. */
    method Grant(k: nat, acting: UserId)
      requires Valid() && k < |records|
      modifies this
      ensures Valid()
      ensures records == Granted(old(records), old(nextId), k, acting)
      ensures nextId == old(nextId) + 2
    {
      var friendReq := records[k];
      GrantedKeepsOnePending(records, nextId, k, acting);
      KeepsWellFormed(records, nextId, k, friendReq.(status := Accepted));
      records := records[k := friendReq.(status := Accepted)];
      Create(acting, friendReq.user, Accepted);
      Create(friendReq.friend, acting, Accepted);
    }

    /** The remove-friend handler: deletes the first accepted record between
        the two users, in either direction. */
    method RemoveFriend(acting: UserId, friendId: UserId) returns (outcome: Outcome)
      requires Valid()
      modifies this
      ensures Valid()
      ensures Step(outcome, records, nextId) == Remove(old(records), old(nextId), acting, friendId)
    {
      var found := IndexOfFriendship(records, acting, friendId);
      if found.None? {
        return NotFound;
      }
      var k := found.value;
      DeleteKeepsWellFormed(records, nextId, k);
      RemoveKeepsOnePending(records, nextId, acting, friendId);
      records := records[..k] + records[k + 1..];
      outcome := Ok;
    }
  }
}
