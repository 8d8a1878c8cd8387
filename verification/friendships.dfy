/** The friend-record table and the four handlers of the friend controller,
    each as a pure step from the old table to an outcome and the new table.

    A record is the directed edge `user -> friend` with a status. The table
    is kept in insertion order; new record identifiers come from a counter
    `nextId`. The user directory is a list of accounts. */
module Friendships {
  import opened ObjectIds
  import opened RequestIds

  type UserId = string

  datatype Option<T> = None | Some(value: T)

  datatype Status = Pending | Accepted

  /** `user`'s relationship toward `friend`. */
  datatype FriendRecord = FriendRecord(id: nat, user: UserId, friend: UserId, status: Status)

  datatype Account = Account(id: UserId, username: string)

  /** What a handler answers, in place of its HTTP response. */
  datatype Outcome = Ok | NotFound | AlreadyExists | InvalidId | NotFoundOrForbidden

  /** The result of one handler: its outcome and the table afterwards. */
  datatype Step = Step(outcome: Outcome, records: seq<FriendRecord>, nextId: nat)

  /** The two lists the friends page is rendered from. */
  datatype FriendsView = FriendsView(accepted: seq<FriendRecord>, pending: seq<FriendRecord>)

  /** Identifiers increase strictly along the table and all are below the
      counter: the store hands them out in order and never reuses one. */
  predicate WellFormed(rs: seq<FriendRecord>, nextId: nat)
    decreases |rs|
  {
    rs == [] || (rs[|rs| - 1].id < nextId && WellFormed(rs[..|rs| - 1], rs[|rs| - 1].id))
  }

  predicate IdsBelow(rs: seq<FriendRecord>, bound: nat) {
    forall i :: 0 <= i < |rs| ==> rs[i].id < bound
  }

  predicate IdsIncreasing(rs: seq<FriendRecord>) {
    forall i, j :: 0 <= i < j < |rs| ==> rs[i].id < rs[j].id
  }

  /** The recursive invariant says the same as its two quantified readings;
      in particular no two records share an identifier. */
  lemma {:induction false} WellFormedIff(rs: seq<FriendRecord>, nextId: nat)
    ensures WellFormed(rs, nextId) <==> IdsBelow(rs, nextId) && IdsIncreasing(rs)
    decreases |rs|
  {
    if rs != [] {
      var init, last := rs[..|rs| - 1], rs[|rs| - 1];
      WellFormedIff(init, last.id);
      assert forall i :: 0 <= i < |init| ==> init[i] == rs[i];
      if IdsBelow(rs, nextId) && IdsIncreasing(rs) {
        assert forall i :: 0 <= i < |init| ==> init[i].id < last.id;
      }
    }
  }

  /** A record appended with the counter's identifier keeps the table well
      formed once the counter moves on. */
  lemma CreateKeepsWellFormed(rs: seq<FriendRecord>, nextId: nat, r: FriendRecord)
    requires WellFormed(rs, nextId)
    requires r.id == nextId
    ensures WellFormed(rs + [r], nextId + 1)
  {
    assert (rs + [r])[..|rs|] == rs;
  }

  /** Changing a record's fields other than its identifier keeps the table
      well formed. */
  lemma {:induction false} KeepsWellFormed(rs: seq<FriendRecord>, nextId: nat, k: nat, r: FriendRecord)
    requires WellFormed(rs, nextId)
    requires k < |rs| && r.id == rs[k].id
    ensures WellFormed(rs[k := r], nextId)
    decreases |rs|
  {
    var init, last := rs[..|rs| - 1], rs[|rs| - 1];
    var t := rs[k := r];
    if k == |rs| - 1 {
      assert t[..|t| - 1] == init;
    } else {
      KeepsWellFormed(init, last.id, k, r);
      assert t[..|t| - 1] == init[k := r];
    }
  }

  /** Deleting a record keeps the table well formed. */
  lemma {:induction false} DeleteKeepsWellFormed(rs: seq<FriendRecord>, nextId: nat, k: nat)
    requires WellFormed(rs, nextId)
    requires k < |rs|
    ensures WellFormed(rs[..k] + rs[k + 1..], nextId)
    decreases |rs|
  {
    var init, last := rs[..|rs| - 1], rs[|rs| - 1];
    var rest := rs[..k] + rs[k + 1..];
    if k == |rs| - 1 {
      assert rest == init;
      if init != [] {
        assert init[|init| - 1].id < last.id;
      }
    } else {
      DeleteKeepsWellFormed(init, last.id, k);
      assert rest == (init[..k] + init[k + 1..]) + [last];
      assert rest[..|rest| - 1] == init[..k] + init[k + 1..];
    }
  }

  // ---------------------------------------------------------------------
  // The user directory

  /** The account whose identifier `id` names, if there is one. The store
      reads the hexadecimal digits of an identifier in either case, so `id`
      may spell the account's identifier in another case. */
  function FindUserById(dir: seq<Account>, id: UserId): (r: Option<Account>)
    ensures r.Some? <==> exists i :: 0 <= i < |dir| && LowerHex(dir[i].id) == LowerHex(id)
    ensures r.Some? ==> r.value in dir && LowerHex(r.value.id) == LowerHex(id)
  {
    if dir == [] then None
    else if LowerHex(dir[0].id) == LowerHex(id) then Some(dir[0])
    else
      var r := FindUserById(dir[1..], id);
      assert forall i :: 1 <= i < |dir| ==> dir[i] == dir[1..][i - 1];
      r
  }

  /** The first account named `username`, if there is one. */
  function FindUserByName(dir: seq<Account>, username: string): (r: Option<Account>)
    ensures r.Some? <==> exists i :: 0 <= i < |dir| && dir[i].username == username
    ensures r.Some? ==> r.value in dir && r.value.username == username
  {
    if dir == [] then None
    else if dir[0].username == username then Some(dir[0])
    else
      var r := FindUserByName(dir[1..], username);
      assert forall i :: 1 <= i < |dir| ==> dir[i] == dir[1..][i - 1];
      r
  }

  /** The target of a friend request: looked up by `friendId` when one is
      given, otherwise by `username` when one is given. An empty string is an
      absent field. A given but unknown `friendId` does not fall back to the
      name. The target is the found account's own identifier, not the text
      the sender gave. */
  function ResolveTarget(dir: seq<Account>, friendId: string, username: string): (target: Option<UserId>)
    ensures friendId != "" ==>
      && (target.Some? <==> exists i :: 0 <= i < |dir| && LowerHex(dir[i].id) == LowerHex(friendId))
      && (target.Some? ==> exists a :: a in dir && LowerHex(a.id) == LowerHex(friendId) && a.id == target.value)
    ensures friendId == "" && username != "" ==>
      && (target.Some? <==> exists i :: 0 <= i < |dir| && dir[i].username == username)
      && (target.Some? ==> exists a :: a in dir && a.username == username && a.id == target.value)
    ensures friendId == "" && username == "" ==> target.None?
  {
    var account :=
      if friendId != "" then FindUserById(dir, friendId)
      else if username != "" then FindUserByName(dir, username)
      else None;
    if account.Some? then Some(account.value.id) else None
  }

  // ---------------------------------------------------------------------
  // Record lookups

  /** Some record, of any status, goes from `user` to `friend`. */
  predicate HasDirected(rs: seq<FriendRecord>, user: UserId, friend: UserId) {
    exists i :: 0 <= i < |rs| && rs[i].user == user && rs[i].friend == friend
  }

  /** The duplicate query of the send handler: the position of the first
      record, of any status, going from `user` to `friend`. The status and
      the opposite direction are not looked at. */
  function FindDirected(rs: seq<FriendRecord>, user: UserId, friend: UserId): (k: Option<nat>)
    ensures k.Some? ==> && k.value < |rs| && rs[k.value].user == user && rs[k.value].friend == friend
                        && forall i :: 0 <= i < k.value ==> !(rs[i].user == user && rs[i].friend == friend)
    ensures k.None? ==> forall i :: 0 <= i < |rs| ==> !(rs[i].user == user && rs[i].friend == friend)
  {
    if rs == [] then None
    else if rs[0].user == user && rs[0].friend == friend then Some(0)
    else
      var k := FindDirected(rs[1..], user, friend);
      assert forall i :: 1 <= i < |rs| ==> rs[i] == rs[1..][i - 1];
      if k.Some? then Some(k.value + 1) else None
  }

  /** The position of a record whose identifier the text `text` names, in
      any case of its hexadecimal letters. */
  function IndexOfId(rs: seq<FriendRecord>, text: string): (k: Option<nat>)
    ensures k.Some? ==> k.value < |rs| && Names(text, rs[k.value].id)
    ensures k.None? ==> forall i :: 0 <= i < |rs| ==> !Names(text, rs[i].id)
  {
    if rs == [] then None
    else if Names(text, rs[0].id) then Some(0)
    else
      var k := IndexOfId(rs[1..], text);
      assert forall i :: 1 <= i < |rs| ==> rs[i] == rs[1..][i - 1];
      if k.Some? then Some(k.value + 1) else None
  }

  /** `r` is an accepted record between `a` and `b`, in either direction:
      the filter of the remove handler. The store casts the given
      identifiers, so they match in any case of their hexadecimal letters.
      The two users of the record are the pair `a`, `b` taken as a set, so
      the filter does not depend on the order of the pair. */
  function IsAcceptedBetween(r: FriendRecord, a: UserId, b: UserId): (linked: bool)
    ensures linked <==> r.status == Accepted
                        && {LowerHex(r.user), LowerHex(r.friend)} == {LowerHex(a), LowerHex(b)}
    ensures r.status == Accepted && ((r.user == a && r.friend == b) || (r.user == b && r.friend == a)) ==> linked
  {
    && r.status == Accepted
    && ((LowerHex(r.user) == LowerHex(a) && LowerHex(r.friend) == LowerHex(b))
        || (LowerHex(r.user) == LowerHex(b) && LowerHex(r.friend) == LowerHex(a)))
  }

  /** The position of the first accepted record between `a` and `b`. */
  function IndexOfFriendship(rs: seq<FriendRecord>, a: UserId, b: UserId): (k: Option<nat>)
    ensures k.Some? ==> && k.value < |rs| && IsAcceptedBetween(rs[k.value], a, b)
                        && forall i :: 0 <= i < k.value ==> !IsAcceptedBetween(rs[i], a, b)
    ensures k.None? ==> forall i :: 0 <= i < |rs| ==> !IsAcceptedBetween(rs[i], a, b)
  {
    if rs == [] then None
    else if IsAcceptedBetween(rs[0], a, b) then Some(0)
    else
      var k := IndexOfFriendship(rs[1..], a, b);
      assert forall i :: 1 <= i < |rs| ==> rs[i] == rs[1..][i - 1];
      if k.Some? then Some(k.value + 1) else None
  }

  // ---------------------------------------------------------------------
  // The handlers

  /** Sending a friend request from `acting`. It fails with NotFound when
      the target does not resolve and with AlreadyExists when a record from
      `acting` to the target exists; only then is a pending record added.
      A failure leaves the table as it was. */
  function Send(rs: seq<FriendRecord>, nextId: nat, dir: seq<Account>,
                acting: UserId, friendId: string, username: string): (s: Step)
    ensures s.outcome in {Ok, NotFound, AlreadyExists}
    ensures s.outcome == NotFound <==> ResolveTarget(dir, friendId, username).None?
    ensures s.outcome == AlreadyExists <==>
      ResolveTarget(dir, friendId, username).Some? && HasDirected(rs, acting, ResolveTarget(dir, friendId, username).value)
    ensures s.outcome != Ok ==> s.records == rs && s.nextId == nextId
    ensures s.outcome == Ok ==>
      && s.records == rs + [FriendRecord(nextId, acting, ResolveTarget(dir, friendId, username).value, Pending)]
      && s.nextId == nextId + 1
  {
    var target := ResolveTarget(dir, friendId, username);
    if target.None? then Step(NotFound, rs, nextId)
    else if FindDirected(rs, acting, target.value).Some? then Step(AlreadyExists, rs, nextId)
    else
      Step(Ok, rs + [FriendRecord(nextId, acting, target.value, Pending)], nextId + 1)
  }

  /** The table once the request at position `k` is accepted by `acting`:
      the request is flipped to accepted in place, then `acting -> requester`
      and `request.friend -> acting` follow as new accepted records. */
  function Granted(rs: seq<FriendRecord>, nextId: nat, k: nat, acting: UserId): (t: seq<FriendRecord>)
    requires k < |rs|
    ensures |t| == |rs| + 2
    ensures t[k] == rs[k].(status := Accepted)
    ensures forall i :: 0 <= i < |rs| && i != k ==> t[i] == rs[i]
    ensures t[|rs|] == FriendRecord(nextId, acting, rs[k].user, Accepted)
    ensures t[|rs| + 1] == FriendRecord(nextId + 1, rs[k].friend, acting, Accepted)
  {
    var req := rs[k];
    rs[k := req.(status := Accepted)]
      + [FriendRecord(nextId, acting, req.user, Accepted)]
      + [FriendRecord(nextId + 1, req.friend, acting, Accepted)]
  }

  /** Granting keeps the table well formed once the counter has moved past
      the two new records. */
  lemma GrantedKeepsWellFormed(rs: seq<FriendRecord>, nextId: nat, k: nat, acting: UserId)
    requires WellFormed(rs, nextId)
    requires k < |rs|
    ensures WellFormed(Granted(rs, nextId, k, acting), nextId + 2)
  {
    var req := rs[k];
    var flipped := rs[k := req.(status := Accepted)];
    var mutual := FriendRecord(nextId, acting, req.user, Accepted);
    var reverse := FriendRecord(nextId + 1, req.friend, acting, Accepted);
    KeepsWellFormed(rs, nextId, k, req.(status := Accepted));
    CreateKeepsWellFormed(flipped, nextId, mutual);
    CreateKeepsWellFormed(flipped + [mutual], nextId + 1, reverse);
  }

  /** Accepting the request named by `requestId` on behalf of `acting`. The
      identifier is cleaned and must satisfy `isValid` (the store's notion of
      a well-formed identifier), else InvalidId; the record must exist and be
      addressed to `acting`, else NotFoundOrForbidden. On success the record
      becomes accepted, whatever its status was, and two accepted records
      are added. A failure leaves the table as it was. */
  function Accept(rs: seq<FriendRecord>, nextId: nat, acting: UserId,
                  requestId: string, isValid: string -> bool): (s: Step)
    ensures s.outcome in {Ok, InvalidId, NotFoundOrForbidden}
    ensures s.outcome == InvalidId <==> !isValid(CleanId(requestId))
    ensures s.outcome == NotFoundOrForbidden <==>
      && isValid(CleanId(requestId))
      && var found := IndexOfId(rs, CleanId(requestId));
         found.None? || rs[found.value].friend != acting
    ensures s.outcome != Ok ==> s.records == rs && s.nextId == nextId
  {
    var cleaned := CleanId(requestId);
    if !isValid(cleaned) then Step(InvalidId, rs, nextId)
    else
      var found := IndexOfId(rs, cleaned);
      if found.None? || rs[found.value].friend != acting then Step(NotFoundOrForbidden, rs, nextId)
      else Step(Ok, Granted(rs, nextId, found.value, acting), nextId + 2)
  }

  /** A valid identifier naming a request addressed to `acting` is granted. */
  lemma AcceptGranted(rs: seq<FriendRecord>, nextId: nat, acting: UserId,
                      requestId: string, isValid: string -> bool, k: nat)
    requires isValid(CleanId(requestId))
    requires IndexOfId(rs, CleanId(requestId)) == Some(k)
    requires k < |rs| && rs[k].friend == acting
    ensures Accept(rs, nextId, acting, requestId, isValid) == Step(Ok, Granted(rs, nextId, k, acting), nextId + 2)
  {
  }

  /** Removing the friendship between `acting` and `friendId`: the first
      accepted record between the two, in either direction, is deleted; with
      none, NotFound and the table as it was. */
  function Remove(rs: seq<FriendRecord>, nextId: nat, acting: UserId, friendId: UserId): (s: Step)
    ensures s.outcome in {Ok, NotFound}
    ensures s.outcome == NotFound <==> forall i :: 0 <= i < |rs| ==> !IsAcceptedBetween(rs[i], acting, friendId)
    ensures s.outcome == NotFound ==> s.records == rs
    ensures s.nextId == nextId
    ensures s.outcome == Ok ==> |s.records| == |rs| - 1
  {
    var found := IndexOfFriendship(rs, acting, friendId);
    if found.None? then Step(NotFound, rs, nextId)
    else
      var k := found.value;
      Step(Ok, rs[..k] + rs[k + 1..], nextId)
  }

  // ---------------------------------------------------------------------
  // The table invariant is kept by every handler

  lemma SendKeepsWellFormed(rs: seq<FriendRecord>, nextId: nat, dir: seq<Account>,
                            acting: UserId, friendId: string, username: string)
    requires WellFormed(rs, nextId)
    ensures var s := Send(rs, nextId, dir, acting, friendId, username);
            WellFormed(s.records, s.nextId)
  {
    var target := ResolveTarget(dir, friendId, username);
    if target.Some? && FindDirected(rs, acting, target.value).None? {
      CreateKeepsWellFormed(rs, nextId, FriendRecord(nextId, acting, target.value, Pending));
    }
  }

  lemma AcceptKeepsWellFormed(rs: seq<FriendRecord>, nextId: nat, acting: UserId,
                              requestId: string, isValid: string -> bool)
    requires WellFormed(rs, nextId)
    ensures var s := Accept(rs, nextId, acting, requestId, isValid);
            WellFormed(s.records, s.nextId)
  {
    var cleaned := CleanId(requestId);
    if isValid(cleaned) {
      var found := IndexOfId(rs, cleaned);
      if found.Some? && rs[found.value].friend == acting {
        GrantedKeepsWellFormed(rs, nextId, found.value, acting);
      }
    }
  }

  lemma RemoveKeepsWellFormed(rs: seq<FriendRecord>, nextId: nat, acting: UserId, friendId: UserId)
    requires WellFormed(rs, nextId)
    ensures var s := Remove(rs, nextId, acting, friendId);
            WellFormed(s.records, s.nextId)
  {
    var found := IndexOfFriendship(rs, acting, friendId);
    if found.Some? {
      DeleteKeepsWellFormed(rs, nextId, found.value);
    }
  }

  // ---------------------------------------------------------------------
  // At most one pending request per ordered pair

  /** No two pending records go from the same user to the same friend. */
  predicate OnePendingPerPair(rs: seq<FriendRecord>) {
    forall i, j :: 0 <= i < j < |rs| && rs[i].status == Pending && rs[j].status == Pending
      ==> rs[i].user != rs[j].user || rs[i].friend != rs[j].friend
  }

  /** Sending adds a pending record only when no record goes the same way,
      so pending requests stay unique per ordered pair. */
  lemma SendKeepsOnePending(rs: seq<FriendRecord>, nextId: nat, dir: seq<Account>,
                            acting: UserId, friendId: string, username: string)
    requires OnePendingPerPair(rs)
    ensures OnePendingPerPair(Send(rs, nextId, dir, acting, friendId, username).records)
  {
    var t := Send(rs, nextId, dir, acting, friendId, username).records;
    if t != rs {
      forall i, j | 0 <= i < j < |t| && t[i].status == Pending && t[j].status == Pending
        ensures t[i].user != t[j].user || t[i].friend != t[j].friend
      {
        assert t[i] == rs[i];
        if j < |rs| {
          assert t[j] == rs[j];
        }
      }
    }
  }

  /** Granting only flips a record to accepted and appends accepted
      records, so it adds no pending record. */
  lemma GrantedKeepsOnePending(rs: seq<FriendRecord>, nextId: nat, k: nat, acting: UserId)
    requires OnePendingPerPair(rs)
    requires k < |rs|
    ensures OnePendingPerPair(Granted(rs, nextId, k, acting))
  {
    var t := Granted(rs, nextId, k, acting);
    forall i, j | 0 <= i < j < |t| && t[i].status == Pending && t[j].status == Pending
      ensures t[i].user != t[j].user || t[i].friend != t[j].friend
    {
      assert j < |rs| && i != k && j != k;
      assert t[i] == rs[i] && t[j] == rs[j];
    }
  }

  lemma AcceptKeepsOnePending(rs: seq<FriendRecord>, nextId: nat, acting: UserId,
                              requestId: string, isValid: string -> bool)
    requires OnePendingPerPair(rs)
    ensures OnePendingPerPair(Accept(rs, nextId, acting, requestId, isValid).records)
  {
    var cleaned := CleanId(requestId);
    if isValid(cleaned) {
      var found := IndexOfId(rs, cleaned);
      if found.Some? && rs[found.value].friend == acting {
        GrantedKeepsOnePending(rs, nextId, found.value, acting);
      }
    }
  }

  /** Removing deletes a record and changes no other, so pending requests
      stay unique per ordered pair. */
  lemma RemoveKeepsOnePending(rs: seq<FriendRecord>, nextId: nat, acting: UserId, friendId: UserId)
    requires OnePendingPerPair(rs)
    ensures OnePendingPerPair(Remove(rs, nextId, acting, friendId).records)
  {
    var found := IndexOfFriendship(rs, acting, friendId);
    if found.Some? {
      var k := found.value;
      var t := rs[..k] + rs[k + 1..];
      forall i, j | 0 <= i < j < |t| && t[i].status == Pending && t[j].status == Pending
        ensures t[i].user != t[j].user || t[i].friend != t[j].friend
      {
        var i', j' := if i < k then i else i + 1, if j < k then j else j + 1;
        assert t[i] == rs[i'] && t[j] == rs[j'];
      }
    }
  }

  // ---------------------------------------------------------------------
  // The friends list

  predicate Involves(r: FriendRecord, u: UserId) {
    r.user == u || r.friend == u
  }

  /** The records in which `u` is either party, in table order: the query
      of the friends page. */
  function Involving(rs: seq<FriendRecord>, u: UserId): (r: seq<FriendRecord>)
    ensures |r| <= |rs|
    ensures forall x :: x in r <==> x in rs && Involves(x, u)
  {
    if rs == [] then []
    else
      assert rs == [rs[0]] + rs[1..];
      (if Involves(rs[0], u) then [rs[0]] else []) + Involving(rs[1..], u)
  }

  /** The records with status `st`, in table order. */
  function WithStatus(rs: seq<FriendRecord>, st: Status): (r: seq<FriendRecord>)
    ensures |r| <= |rs|
    ensures forall x :: x in r <==> x in rs && x.status == st
  {
    if rs == [] then []
    else
      assert rs == [rs[0]] + rs[1..];
      (if rs[0].status == st then [rs[0]] else []) + WithStatus(rs[1..], st)
  }

  /** The friends page of `u`: the accepted and the pending records that
      involve `u`, in either direction. */
  function ListFriends(rs: seq<FriendRecord>, u: UserId): (v: FriendsView)
    ensures forall x :: x in v.accepted <==> x in rs && Involves(x, u) && x.status == Accepted
    ensures forall x :: x in v.pending <==> x in rs && Involves(x, u) && x.status == Pending
  {
    var friends := Involving(rs, u);
    FriendsView(WithStatus(friends, Accepted), WithStatus(friends, Pending))
  }
}
