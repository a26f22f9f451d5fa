/** The notification routes mounted at `/api/notifications`, all behind the bearer-token
    gate: list my notifications, create one for myself, mark all of mine read. Token
    verification (`jwt.verify` with the server secret and the token's expiry) is a
    parameter: it yields the `id` claim of a token it accepts, and None for any failure. */
module Notifications {
  import opened Wrappers
  import opened Text
  import opened Accounts
  import Recency

  // ---------------------------------------------------------------- the gate

  const BearerPrefix: string := "Bearer "

  datatype AuthFailure = NoToken | InvalidToken | UserNotFound

  /** The message of the 401 reply for each failure. */
  function FailureMessage(f: AuthFailure): string {
    match f
    case NoToken => "No token"
    case InvalidToken => "Invalid token"
    case UserNotFound => "User not found"
  }

  /** Either the request proceeds as `user`, or it is answered 401. */
  datatype Gate = Admit(user: User) | Deny(failure: AuthFailure)

  /** `auth.split(" ")[1]` for a header that starts with "Bearer ": the text after the
      prefix, up to the next space. */
  function BearerToken(auth: string): (token: string)
    requires StartsWith(auth, BearerPrefix)
    ensures ' ' !in token
  {
    SplitAfterWord("Bearer", auth[|BearerPrefix|..], ' ');
    assert auth == "Bearer" + [' '] + auth[|BearerPrefix|..];
    Split(auth, ' ')[1]
  }

  /** For a token without spaces, `BearerToken` gives back exactly the token. */
  lemma BearerTokenOfToken(token: string)
    requires ' ' !in token
    ensures BearerToken(BearerPrefix + token) == token
  {
    var auth := BearerPrefix + token;
    assert auth[|BearerPrefix|..] == token;
    SplitAfterWord("Bearer", token, ' ');
    SplitWithoutSeparator(token, ' ');
    assert auth == "Bearer" + [' '] + token;
  }

  /** `authMiddleware`: the header (absent counts as ""), the prefix test, the token,
      verification, and the user lookup, in that order. */
  function Authenticate(authorization: Option<string>, verifyToken: string -> Option<nat>,
                        users: seq<User>): (g: Gate)
    ensures g.Admit? ==> g.user in users
    ensures g == Deny(NoToken) <==> !StartsWith(authorization.GetOr(""), BearerPrefix)
    ensures g == Deny(InvalidToken) <==>
      StartsWith(authorization.GetOr(""), BearerPrefix)
      && verifyToken(BearerToken(authorization.GetOr(""))).None?
    ensures g.Admit? <==>
      StartsWith(authorization.GetOr(""), BearerPrefix)
      && verifyToken(BearerToken(authorization.GetOr(""))).Some?
      && FindById(users, verifyToken(BearerToken(authorization.GetOr(""))).value).Some?
    ensures g.Admit? ==> g.user.id == verifyToken(BearerToken(authorization.GetOr(""))).value
  {
    var auth := authorization.GetOr("");
    if !StartsWith(auth, BearerPrefix) then Deny(NoToken)
    else match verifyToken(BearerToken(auth))
      case None => Deny(InvalidToken)
      case Some(id) =>
        match FindById(users, id)
        case None => Deny(UserNotFound)
        case Some(u) => Admit(u)
  }

  /** A well-formed header "Bearer <token>" admits the user whose id the token carries,
      when the token verifies and that user exists. */
  lemma BearerHeaderAdmits(token: string, verifyToken: string -> Option<nat>, users: seq<User>, u: User)
    requires ' ' !in token
    requires verifyToken(token) == Some(u.id)
    requires FindById(users, u.id) == Some(u)
    ensures Authenticate(Some(BearerPrefix + token), verifyToken, users) == Admit(u)
  {
    BearerTokenOfToken(token);
  }

  // ---------------------------------------------------------------- the store

  /** A notification. `kind` is the `type` field. */
  datatype Notification = Notification(id: nat, user: nat, kind: string, message: string,
                                       read: bool, createdAt: nat)

  /** The body of POST `/`. `user` is there to show that a client-supplied owner is ignored. */
  datatype NotificationBody = NotificationBody(kind: Option<string>, message: Option<string>,
                                               user: Option<nat>)

  function CreatedAt(n: Notification): nat {
    n.createdAt
  }

  /** `{ user: uid }`: the notifications owned by `uid`, in stored order, each as often as
      it is stored. */
  function OwnedBy(s: seq<Notification>, uid: nat): (r: seq<Notification>)
    ensures forall n :: n in r <==> n in s && n.user == uid
    ensures forall n :: multiset(r)[n] == if n.user == uid then multiset(s)[n] else 0
  {
    if s == [] then []
    else
      assert s == [s[0]] + s[1..];
      if s[0].user == uid then [s[0]] + OwnedBy(s[1..], uid) else OwnedBy(s[1..], uid)
  }

  /** The `updateMany` update applied to one record. */
  function MarkOne(n: Notification, uid: nat): Notification {
    if n.user == uid && !n.read then n.(read := true) else n
  }

  /** `updateMany({ user: uid, read: false }, { $set: { read: true } })`. Other users'
      notifications are untouched, `uid`'s differ at most in `read`, and all of `uid`'s
      are read afterwards. */
  function MarkedRead(s: seq<Notification>, uid: nat): (r: seq<Notification>)
    ensures |r| == |s|
    ensures forall k :: 0 <= k < |s| && s[k].user != uid ==> r[k] == s[k]
    ensures forall k :: 0 <= k < |s| && s[k].user == uid ==> r[k] == s[k].(read := true)
    ensures forall n :: n in OwnedBy(r, uid) ==> n.read
  {
    seq(|s|, k requires 0 <= k < |s| => MarkOne(s[k], uid))
  }

  /** Marking twice is marking once. */
  lemma MarkedReadIdempotent(s: seq<Notification>, uid: nat)
    ensures MarkedRead(MarkedRead(s, uid), uid) == MarkedRead(s, uid)
  {
  }

  /** Marking one user's notifications does not change what another user sees. */
  lemma {:induction false} MarkedReadKeepsOthers(s: seq<Notification>, uid: nat, other: nat)
    requires other != uid
    ensures OwnedBy(MarkedRead(s, uid), other) == OwnedBy(s, other)
  {
    if s != [] {
      MarkedReadKeepsOthers(s[1..], uid, other);
      assert MarkedRead(s, uid)[1..] == MarkedRead(s[1..], uid);
    }
  }

  /** The notification collection. */
  class NotificationStore {
    var notifications: seq<Notification>
    var nextId: nat

    ghost predicate Valid()
      reads this
    {
      && UniqueBy(notifications, (n: Notification) => n.id)
      && forall k :: 0 <= k < |notifications| ==> notifications[k].id < nextId
    }

    constructor ()
      ensures Valid() && notifications == [] && nextId == 0
    {
      notifications := [];
      nextId := 0;
    }

    /** GET `/me`: exactly the caller's notifications, newest first. */
    method Mine(authorization: Option<string>, verifyToken: string -> Option<nat>, users: seq<User>)
      returns (r: Reply<seq<Notification>>)
      ensures var g := Authenticate(authorization, verifyToken, users);
        && (g.Deny? ==> r == Fail(401, FailureMessage(g.failure)))
        && (g.Admit? ==> r.Ok? && r.status == 200
                         && multiset(r.body) == multiset(OwnedBy(notifications, g.user.id))
                         && Recency.NewestFirst(r.body, CreatedAt))
    {
      var g := Authenticate(authorization, verifyToken, users);
      if g.Deny? {
        return Fail(401, FailureMessage(g.failure));
      }
      r := Ok(200, Recency.SortNewestFirst(OwnedBy(notifications, g.user.id), CreatedAt));
    }

    /** POST `/`: a notification for the caller; the owner comes from the gate, never the body. */
    method Create(authorization: Option<string>, verifyToken: string -> Option<nat>, users: seq<User>,
                  body: NotificationBody, now: nat)
      returns (r: Reply<Notification>)
      requires Valid()
      modifies this
      ensures Valid()
      ensures var g := Authenticate(authorization, verifyToken, users);
        && (g.Deny? ==> r == Fail(401, FailureMessage(g.failure)))
        && (g.Admit? && !Truthy(body.message) ==> r == Fail(400, "Message is required"))
        && (r.Ok? <==> g.Admit? && Truthy(body.message))
        && (r.Ok? ==> r.body == Notification(old(nextId), g.user.id,
                                             if Truthy(body.kind) then body.kind.value else "info",
                                             body.message.value, false, now))
      ensures r.Fail? ==> notifications == old(notifications) && nextId == old(nextId)
      ensures r.Ok? ==> r.status == 201 && notifications == old(notifications) + [r.body]
                        && nextId == old(nextId) + 1
      ensures r.Ok? ==> forall k :: 0 <= k < |old(notifications)| ==> old(notifications)[k].id != r.body.id
    {
      var g := Authenticate(authorization, verifyToken, users);
      if g.Deny? {
        return Fail(401, FailureMessage(g.failure));
      }
      if !Truthy(body.message) {
        return Fail(400, "Message is required");
      }
      var n := Notification(nextId, g.user.id, if Truthy(body.kind) then body.kind.value else "info",
                            body.message.value, false, now);
      notifications := notifications + [n];
      nextId := nextId + 1;
      r := Ok(201, n);
    }

    /** POST `/mark-all-read`: sets `read` on every unread notification of the caller. */
    method MarkAllRead(authorization: Option<string>, verifyToken: string -> Option<nat>, users: seq<User>)
      returns (r: Reply<()>)
      requires Valid()
      modifies this
      ensures Valid() && nextId == old(nextId)
      ensures var g := Authenticate(authorization, verifyToken, users);
        && (g.Deny? ==> r == Fail(401, FailureMessage(g.failure)) && notifications == old(notifications))
        && (g.Admit? ==> r == Ok(200, ()) && notifications == MarkedRead(old(notifications), g.user.id))
    {
      var g := Authenticate(authorization, verifyToken, users);
      if g.Deny? {
        return Fail(401, FailureMessage(g.failure));
      }
      var uid := g.user.id;
      var updated: seq<Notification> := [];
      var i := 0;
      while i < |notifications|
        invariant 0 <= i <= |notifications|
        invariant |updated| == i
        invariant forall k :: 0 <= k < i ==> updated[k] == MarkOne(notifications[k], uid)
      {
        var n := notifications[i];
        updated := updated + [if n.user == uid && !n.read then n.(read := true) else n];
        i := i + 1;
      }
      assert forall k :: 0 <= k < |updated| ==> updated[k].id == notifications[k].id;
      notifications := updated;
      r := Ok(200, ());
    }
  }
}
