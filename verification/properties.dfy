/** What the friend handlers guarantee, and what they do not, stated over
    the pure steps of `Friendships`: the friends page is a partition of the
    records involving a user, only the addressee can accept, a repeated
    request is refused in one direction only, accepting creates a self-loop
    and can be repeated, and removing deletes a single record. */
module FriendProperties {
  import opened ObjectIds
  import opened RequestIds
  import opened Friendships

  // ---------------------------------------------------------------------
  // Identifiers

  /** The text of a record identifier passes the cleaning unchanged. */
  lemma CleanIdOfIdText(n: nat)
    ensures CleanId(IdText(n)) == IdText(n)
  {
    var t := IdText(n);
    forall i | 0 <= i < |t|
      ensures !IsQuote(t[i])
    {
      HexIsPlain(t[i]);
    }
    HexIsPlain(t[0]);
    HexIsPlain(t[|t| - 1]);
    CleanIdKeepsClean(t);
  }

  lemma HexIsPlain(c: char)
    requires IsHexChar(c)
    ensures !IsQuote(c) && !IsTrimmable(c)
  {
  }

  /** The upper-case spelling of an identifier passes the cleaning
      unchanged as well. */
  lemma CleanIdOfUpperHex(n: nat)
    ensures CleanId(UpperHex(IdText(n))) == UpperHex(IdText(n))
  {
    var t := IdText(n);
    var u := UpperHex(t);
    forall i | 0 <= i < |u|
      ensures !IsQuote(u[i]) && !IsTrimmable(u[i])
    {
      assert IsHexChar(t[i]);
    }
    CleanIdKeepsClean(u);
  }

  /** In a well-formed table any text naming a record's identifier, in
      either case, finds that record and no other. */
  lemma IndexOfIdFinds(rs: seq<FriendRecord>, nextId: nat, k: nat, text: string)
    requires WellFormed(rs, nextId)
    requires k < |rs| && Names(text, rs[k].id)
    ensures IndexOfId(rs, text) == Some(k)
  {
    var found := IndexOfId(rs, text);
    assert found.Some?;
    NamesUnique(text, rs[found.value].id, rs[k].id);
    WellFormedIff(rs, nextId);
  }

  // ---------------------------------------------------------------------
  // Sending a request

  /** A successful request appends exactly one pending record, from the
      sender to the resolved target and carrying the counter's identifier,
      and shows up as pending on both users' friends pages. */
  lemma SendAddsPendingRequest(rs: seq<FriendRecord>, nextId: nat, dir: seq<Account>,
                               acting: UserId, friendId: string, username: string)
    requires Send(rs, nextId, dir, acting, friendId, username).outcome == Ok
    ensures ResolveTarget(dir, friendId, username).Some?
    ensures var s := Send(rs, nextId, dir, acting, friendId, username);
            var request := FriendRecord(nextId, acting, ResolveTarget(dir, friendId, username).value, Pending);
            && s.records == rs + [request]
            && request in ListFriends(s.records, acting).pending
            && request in ListFriends(s.records, request.friend).pending
  {
    var target := ResolveTarget(dir, friendId, username);
    var request := FriendRecord(nextId, acting, target.value, Pending);
    var s := Send(rs, nextId, dir, acting, friendId, username);
    assert s.records == rs + [request];
    assert request in s.records by { assert s.records[|rs|] == request; }
  }

  /** Sending the same request twice: the second attempt is refused and
      changes nothing. */
  lemma SecondSendConflicts(rs: seq<FriendRecord>, nextId: nat, dir: seq<Account>,
                            acting: UserId, friendId: string, username: string)
    requires Send(rs, nextId, dir, acting, friendId, username).outcome == Ok
    ensures var s1 := Send(rs, nextId, dir, acting, friendId, username);
            Send(s1.records, s1.nextId, dir, acting, friendId, username)
              == Step(AlreadyExists, s1.records, s1.nextId)
  {
    var s1 := Send(rs, nextId, dir, acting, friendId, username);
    var target := ResolveTarget(dir, friendId, username).value;
    assert s1.records[|rs|] == FriendRecord(nextId, acting, target, Pending);
  }

  /** The duplicate check looks in one direction only: when no record
      links two distinct users yet, `a` can ask `b` and then `b` can ask
      `a`, and both pending requests coexist. */
  lemma CrossedRequestsCoexist(rs: seq<FriendRecord>, nextId: nat, dir: seq<Account>,
                               a: UserId, b: UserId, aText: string, bText: string)
    requires a != b
    requires ResolveTarget(dir, bText, "") == Some(b) && ResolveTarget(dir, aText, "") == Some(a)
    requires !HasDirected(rs, a, b) && !HasDirected(rs, b, a)
    ensures var s1 := Send(rs, nextId, dir, a, bText, "");
            var s2 := Send(s1.records, s1.nextId, dir, b, aText, "");
            && s1.outcome == Ok && s2.outcome == Ok
            && s2.records == rs + [FriendRecord(nextId, a, b, Pending), FriendRecord(nextId + 1, b, a, Pending)]
  {
    var ab := FriendRecord(nextId, a, b, Pending);
    var s1 := Send(rs, nextId, dir, a, bText, "");
    assert s1 == Step(Ok, rs + [ab], nextId + 1);
    assert !HasDirected(rs + [ab], b, a);
    assert rs + [ab] + [FriendRecord(nextId + 1, b, a, Pending)] == rs + [ab, FriendRecord(nextId + 1, b, a, Pending)];
  }

  // ---------------------------------------------------------------------
  // Accepting a request

  /** What accepting does, spelled out: when the addressee presents an
      identifier that cleans to a text naming the request at `k`, the request
      becomes accepted whatever its status was, every other record stays,
      and the two records added are `addressee -> requester` and the
      self-loop `addressee -> addressee`. */
  lemma AcceptByAddressee(rs: seq<FriendRecord>, nextId: nat, k: nat, requestId: string, isValid: string -> bool)
    requires WellFormed(rs, nextId)
    requires k < |rs|
    requires Names(CleanId(requestId), rs[k].id)
    requires isValid(CleanId(requestId))
    ensures var req := rs[k];
            var acting := req.friend;
            Accept(rs, nextId, acting, requestId, isValid)
              == Step(Ok, rs[k := req.(status := Accepted)]
                          + [FriendRecord(nextId, acting, req.user, Accepted),
                             FriendRecord(nextId + 1, acting, acting, Accepted)],
                      nextId + 2)
  {
    IndexOfIdFinds(rs, nextId, k, CleanId(requestId));
    AcceptGranted(rs, nextId, rs[k].friend, requestId, isValid, k);
    GrantedByAddressee(rs, nextId, k);
  }

  /** The addressee may spell the request's identifier in upper case: the
      store reads it as the same identifier, and the request is accepted. */
  lemma AcceptUpperCaseId(rs: seq<FriendRecord>, nextId: nat, k: nat, isValid: string -> bool)
    requires WellFormed(rs, nextId)
    requires k < |rs|
    requires isValid(UpperHex(IdText(rs[k].id)))
    ensures Accept(rs, nextId, rs[k].friend, UpperHex(IdText(rs[k].id)), isValid).outcome == Ok
  {
    var text := UpperHex(IdText(rs[k].id));
    CleanIdOfUpperHex(rs[k].id);
    UpperHexNames(rs[k].id);
    AcceptByAddressee(rs, nextId, k, text, isValid);
  }

  lemma GrantedByAddressee(rs: seq<FriendRecord>, nextId: nat, k: nat)
    requires k < |rs|
    ensures var req := rs[k];
            Granted(rs, nextId, k, req.friend)
              == rs[k := req.(status := Accepted)]
                 + [FriendRecord(nextId, req.friend, req.user, Accepted),
                    FriendRecord(nextId + 1, req.friend, req.friend, Accepted)]
  {
    var req := rs[k];
    var flipped := rs[k := req.(status := Accepted)];
    var mutual := FriendRecord(nextId, req.friend, req.user, Accepted);
    var reverse := FriendRecord(nextId + 1, req.friend, req.friend, Accepted);
    assert flipped + [mutual] + [reverse] == flipped + [mutual, reverse];
  }

  /** Only the addressee can accept: any other user presenting the
      request's identifier, however quoted or padded, is refused and the
      table is untouched. */
  lemma OnlyAddresseeAccepts(rs: seq<FriendRecord>, nextId: nat, k: nat, other: UserId,
                             requestId: string, isValid: string -> bool)
    requires WellFormed(rs, nextId)
    requires k < |rs| && other != rs[k].friend
    requires Names(CleanId(requestId), rs[k].id)
    ensures var s := Accept(rs, nextId, other, requestId, isValid);
            && s.outcome in {InvalidId, NotFoundOrForbidden}
            && s.records == rs && s.nextId == nextId
  {
    IndexOfIdFinds(rs, nextId, k, CleanId(requestId));
  }

  /** An accepted request shows as accepted on the friends pages of both
      the requester and the addressee. */
  lemma AcceptShowsOnBothPages(rs: seq<FriendRecord>, nextId: nat, k: nat, requestId: string, isValid: string -> bool)
    requires WellFormed(rs, nextId)
    requires k < |rs|
    requires Names(CleanId(requestId), rs[k].id)
    requires isValid(CleanId(requestId))
    ensures var req := rs[k];
            var s := Accept(rs, nextId, req.friend, requestId, isValid);
            && req.(status := Accepted) in ListFriends(s.records, req.user).accepted
            && req.(status := Accepted) in ListFriends(s.records, req.friend).accepted
  {
    var req := rs[k];
    var s := Accept(rs, nextId, req.friend, requestId, isValid);
    assert k < |s.records| && s.records[k] == req.(status := Accepted) by {
      AcceptByAddressee(rs, nextId, k, requestId, isValid);
    }
    ListedOnBothPages(s.records, k);
  }

  /** An accepted record is on the accepted list of both of its users. */
  lemma ListedOnBothPages(ts: seq<FriendRecord>, k: nat)
    requires k < |ts| && ts[k].status == Accepted
    ensures ts[k] in ListFriends(ts, ts[k].user).accepted
    ensures ts[k] in ListFriends(ts, ts[k].friend).accepted
  {
  }

  /** The status is not checked: a request that is already accepted, as it
      is after `AcceptByAddressee`, is accepted again; the table keeps all
      its records and gains the same two records once more, with new
      identifiers. */
  lemma AcceptAcceptedAgain(ts: seq<FriendRecord>, m: nat, k: nat, req: FriendRecord,
                            requestId: string, isValid: string -> bool)
    requires WellFormed(ts, m)
    requires k < |ts| && ts[k] == req.(status := Accepted)
    requires Names(CleanId(requestId), req.id)
    requires isValid(CleanId(requestId))
    ensures Accept(ts, m, req.friend, requestId, isValid)
              == Step(Ok, ts + [FriendRecord(m, req.friend, req.user, Accepted),
                                FriendRecord(m + 1, req.friend, req.friend, Accepted)], m + 2)
  {
    AcceptByAddressee(ts, m, k, requestId, isValid);
    assert ts[k := ts[k].(status := Accepted)] == ts;
  }

  // ---------------------------------------------------------------------
  // Removing a friend

  /** Removing deletes exactly one accepted record between the two users,
      in either direction, and keeps every other record in order. */
  lemma RemoveDeletesOne(rs: seq<FriendRecord>, nextId: nat, acting: UserId, friendId: UserId)
    requires Remove(rs, nextId, acting, friendId).outcome == Ok
    ensures exists k :: && 0 <= k < |rs| && IsAcceptedBetween(rs[k], acting, friendId)
                        && Remove(rs, nextId, acting, friendId).records == rs[..k] + rs[k + 1..]
  {
    var k := IndexOfFriendship(rs, acting, friendId).value;
    assert IsAcceptedBetween(rs[k], acting, friendId);
  }

  /** Removing stops at the first accepted record between the two users:
      any record after it stays. */
  lemma RemoveKeepsLater(ts: seq<FriendRecord>, m: nat, a: UserId, b: UserId, k: nat, p: nat)
    requires k < p < |ts| && IsAcceptedBetween(ts[k], a, b)
    ensures var s := Remove(ts, m, a, b);
            s.outcome == Ok && ts[p] in s.records
  {
    var j := IndexOfFriendship(ts, a, b).value;
    var rest := ts[..j] + ts[j + 1..];
    assert rest[p - 1] == ts[p];
  }

  /** Removal is not symmetric: after a request is accepted, removing the
      friendship from either side leaves the addressee's reciprocal record,
      so both friends pages still list the pair as accepted. */
  lemma RemoveAfterAcceptLeavesReciprocal(rs: seq<FriendRecord>, nextId: nat, k: nat, requestId: string,
                                          isValid: string -> bool, remover: UserId, other: UserId)
    requires WellFormed(rs, nextId)
    requires k < |rs|
    requires Names(CleanId(requestId), rs[k].id)
    requires isValid(CleanId(requestId))
    requires (remover == rs[k].user && other == rs[k].friend) || (remover == rs[k].friend && other == rs[k].user)
    ensures var req := rs[k];
            var s1 := Accept(rs, nextId, req.friend, requestId, isValid);
            var s2 := Remove(s1.records, s1.nextId, remover, other);
            var reciprocal := FriendRecord(nextId, req.friend, req.user, Accepted);
            && s2.outcome == Ok
            && reciprocal in s2.records
            && reciprocal in ListFriends(s2.records, req.user).accepted
            && reciprocal in ListFriends(s2.records, req.friend).accepted
  {
    var req := rs[k];
    var s1 := Accept(rs, nextId, req.friend, requestId, isValid);
    var reciprocal := FriendRecord(nextId, req.friend, req.user, Accepted);
    assert && |rs| < |s1.records| && s1.records[|rs|] == reciprocal
           && IsAcceptedBetween(s1.records[k], remover, other) by {
      AcceptByAddressee(rs, nextId, k, requestId, isValid);
    }
    RemoveKeepsLater(s1.records, s1.nextId, remover, other, k, |rs|);
  }

  // ---------------------------------------------------------------------
  // The friends page

  lemma {:induction false} SplitByStatus(rs: seq<FriendRecord>)
    ensures multiset(WithStatus(rs, Accepted)) + multiset(WithStatus(rs, Pending)) == multiset(rs)
  {
    if rs != [] {
      var rest := rs[1..];
      SplitByStatus(rest);
      assert rs == [rs[0]] + rest;
      if rs[0].status == Accepted {
        assert WithStatus(rs, Accepted) == [rs[0]] + WithStatus(rest, Accepted);
        assert WithStatus(rs, Pending) == [] + WithStatus(rest, Pending);
      } else {
        assert WithStatus(rs, Accepted) == [] + WithStatus(rest, Accepted);
        assert WithStatus(rs, Pending) == [rs[0]] + WithStatus(rest, Pending);
      }
    }
  }

  lemma {:induction false} InvolvingConcat(a: seq<FriendRecord>, b: seq<FriendRecord>, u: UserId)
    ensures Involving(a + b, u) == Involving(a, u) + Involving(b, u)
  {
    if a == [] {
      assert a + b == b;
    } else {
      var head := if Involves(a[0], u) then [a[0]] else [];
      assert (a + b)[0] == a[0];
      assert (a + b)[1..] == a[1..] + b;
      InvolvingConcat(a[1..], b, u);
      calc {
        Involving(a + b, u);
        head + Involving(a[1..] + b, u);
        head + (Involving(a[1..], u) + Involving(b, u));
        (head + Involving(a[1..], u)) + Involving(b, u);
      }
    }
  }

  lemma {:induction false} WithStatusConcat(a: seq<FriendRecord>, b: seq<FriendRecord>, st: Status)
    ensures WithStatus(a + b, st) == WithStatus(a, st) + WithStatus(b, st)
  {
    if a == [] {
      assert a + b == b;
    } else {
      var head := if a[0].status == st then [a[0]] else [];
      assert (a + b)[0] == a[0];
      assert (a + b)[1..] == a[1..] + b;
      WithStatusConcat(a[1..], b, st);
      calc {
        WithStatus(a + b, st);
        head + WithStatus(a[1..] + b, st);
        head + (WithStatus(a[1..], st) + WithStatus(b, st));
        (head + WithStatus(a[1..], st)) + WithStatus(b, st);
      }
    }
  }

  /** The friends page lists records in table order: a record added at the
      end of the table goes at the end of the list for its status, on the
      pages of the users it involves, and changes no other page. */
  lemma ListFriendsAppend(rs: seq<FriendRecord>, r: FriendRecord, u: UserId)
    ensures var before, after := ListFriends(rs, u), ListFriends(rs + [r], u);
            && after.accepted == before.accepted + (if Involves(r, u) && r.status == Accepted then [r] else [])
            && after.pending == before.pending + (if Involves(r, u) && r.status == Pending then [r] else [])
  {
    InvolvingConcat(rs, [r], u);
    assert Involving([r], u) == if Involves(r, u) then [r] else [] by {
      assert [r][1..] == [];
    }
    var tail := Involving([r], u);
    WithStatusConcat(Involving(rs, u), tail, Accepted);
    WithStatusConcat(Involving(rs, u), tail, Pending);
    if Involves(r, u) {
      assert tail[1..] == [];
    }
  }

  /** The two lists of the friends page split the records involving `u`:
      together they hold each such record exactly as often as the table
      does, and no record is in both. */
  lemma ListFriendsPartition(rs: seq<FriendRecord>, u: UserId)
    ensures var v := ListFriends(rs, u);
            && multiset(v.accepted) + multiset(v.pending) == multiset(Involving(rs, u))
            && multiset(v.accepted) !! multiset(v.pending)
  {
    var v := ListFriends(rs, u);
    SplitByStatus(Involving(rs, u));
    forall x | x in multiset(v.accepted)
      ensures x !in multiset(v.pending)
    {
      assert x in v.accepted;
    }
  }
}
