/**
 * The `useAuth` hook of hooks/useAuth.ts as an object: its three pieces of
 * React state, the `isCheckingRef` re-entrancy flag, and the `auth-change`
 * listener, which is active between mounting and unmounting. `clearUser`
 * and `saveUser` dispatch their event synchronously, so an active listener
 * runs `checkAuth` from inside the operation that wrote to the store. The
 * current time in seconds is a parameter.
 */
module AuthHook {
  import opened Wrappers
  import opened Json
  import opened SessionStore
  import Token

  /** The exit `checkAuth` takes for a given store and time. */
  datatype Evaluation =
    | NoSession      // no token, an empty one, or no user record
    | Undecodable    // the token does not decode to a truthy value
    | Expired        // `exp < now`
    | Valid(user: Obj)

  predicate Rejects(e: Evaluation)
  {
    e.Undecodable? || e.Expired?
  }

  /** The decision `checkAuth` makes, in the order it makes it. */
  function Evaluate(hasWindow: bool, items: map<string, string>, now: int): (e: Evaluation)
    ensures e.NoSession? <==> !TokenPresent(hasWindow, items) || ReadUser(hasWindow, items).None?
    ensures e.Undecodable? <==>
      TokenPresent(hasWindow, items) && ReadUser(hasWindow, items).Some?
      && !Truthy(Token.DecodeToken(ReadToken(hasWindow, items).value))
    ensures e.Valid? ==> var claims := Token.DecodeToken(ReadToken(hasWindow, items).value);
      claims.Some? && !Token.Expired(claims.value, now)
      && e.user == Backfill(ReadUser(hasWindow, items).value, claims.value)
  {
    var token := ReadToken(hasWindow, items);
    var userData := ReadUser(hasWindow, items);
    if token.None? || token.value == "" || userData.None? then NoSession
    else
      var decoded := Token.DecodeToken(token.value);
      if !Truthy(decoded) then Undecodable
      else if Token.Expired(decoded.value, now) then Expired
      else Valid(Backfill(userData.value, decoded.value))
  }

  /** `!!getToken()`: the stored token is a truthy string. */
  function TokenPresent(hasWindow: bool, items: map<string, string>): (b: bool)
    ensures b <==> ReadToken(hasWindow, items).Some? && Truthy(Some(JStr(ReadToken(hasWindow, items).value)))
    ensures b ==> hasWindow
  {
    ReadToken(hasWindow, items).Some? && ReadToken(hasWindow, items).value != ""
  }

  /**
   * `{...userData, _id: userId}`: a falsy `_id` is replaced by the token's
   * `id` claim; every other property is carried over.
   */
  function Backfill(userData: Obj, claims: Json): (u: Obj)
    ensures Truthy(Get(userData, "_id")) ==> Get(u, "_id") == Get(userData, "_id")
    ensures !Truthy(Get(userData, "_id")) ==> Get(u, "_id") == Property(claims, "id")
    ensures forall k :: k != "_id" ==> Get(u, k) == Get(userData, k)
  {
    var userId := Get(userData, "_id");
    var userId' := if !Truthy(userId) then Property(claims, "id") else userId;
    Assign(userData, "_id", userId')
  }

  /** `user`, `isAuthenticated` and `isLoading`. */
  datatype View = View(user: Option<Obj>, isAuthenticated: bool, isLoading: bool)

  /** The state every exit of `checkAuth` sets. */
  function AfterCheck(e: Evaluation): (v: View)
    ensures !v.isLoading
    ensures v.isAuthenticated <==> v.user.Some?
    ensures v.user.Some? <==> e.Valid?
    ensures e.Valid? ==> v.user == Some(e.user)
  {
    match e
    case Valid(u) => View(Some(u), true, false)
    case _ => View(None, false, false)
  }

  /** The storage after `checkAuth`: cleared on the two rejecting exits, untouched otherwise. */
  function StoreAfter(hasWindow: bool, items: map<string, string>, e: Evaluation): (m: map<string, string>)
    ensures !Rejects(e) || !hasWindow ==> m == items
  {
    if Rejects(e) && hasWindow then Cleared(items) else items
  }

  // ---------------------------------------------------------------
  // What checkAuth guarantees
  // ---------------------------------------------------------------

  /** A rejected token leaves neither a user record nor a token behind. */
  lemma {:induction false} RejectClears(hasWindow: bool, items: map<string, string>, now: int)
    requires Rejects(Evaluate(hasWindow, items, now))
    ensures var m := StoreAfter(hasWindow, items, Evaluate(hasWindow, items, now));
      ReadUser(hasWindow, m).None? && ReadToken(hasWindow, m).None?
  {
    ClearThenRead(items);
  }

  /** An empty store evaluates to no session. */
  lemma {:induction false} ClearedIsNoSession(hasWindow: bool, items: map<string, string>, now: int)
    ensures Evaluate(hasWindow, Cleared(items), now) == NoSession
  {
    ClearThenRead(items);
  }

  /**
   * Re-evaluating right after a check, with no write in between and the
   * same time, gives the same state and changes the store no further.
   */
  lemma {:induction false} CheckIdempotent(hasWindow: bool, items: map<string, string>, now: int)
    ensures var e := Evaluate(hasWindow, items, now);
      var m := StoreAfter(hasWindow, items, e);
      var e' := Evaluate(hasWindow, m, now);
      AfterCheck(e') == AfterCheck(e) && StoreAfter(hasWindow, m, e') == m
  {
    var e := Evaluate(hasWindow, items, now);
    if Rejects(e) && hasWindow {
      ClearedIsNoSession(hasWindow, items, now);
    }
  }

  /** A token whose `exp` is exactly `now` is accepted. */
  lemma {:induction false} ExpiryBoundaryAccepted(hasWindow: bool, items: map<string, string>, now: int)
    requires TokenPresent(hasWindow, items) && ReadUser(hasWindow, items).Some?
    requires var claims := Token.DecodeToken(ReadToken(hasWindow, items).value);
      Truthy(claims) && Property(claims.value, "exp") == Some(JNum(now))
    ensures Evaluate(hasWindow, items, now).Valid?
  {
    var claims := Token.DecodeToken(ReadToken(hasWindow, items).value);
    Token.ExpiryBoundaryAccepted(claims.value, now);
  }

  /**
   * `checkAuth` and `useDecodeToken` agree: the check succeeds exactly when
   * there is a user record and `useDecodeToken` reports a decoded token
   * that is not expired.
   */
  lemma {:induction false} EvaluateAgreesWithUseDecodeToken(hasWindow: bool, items: map<string, string>, now: int)
    ensures Evaluate(hasWindow, items, now).Valid? <==>
      ReadUser(hasWindow, items).Some? &&
      var s := Token.UseDecodeToken(ReadToken(hasWindow, items), now);
      s.decodedToken.Some? && !s.isExpired
  {
  }

  /**
   * `login` with a token that has expired: the listener's check, run from
   * inside `saveUser`, clears what was just saved.
   */
  lemma {:induction false} LoginWithExpiredToken(items: map<string, string>, u: SafeUser, t: string, now: int)
    requires t != ""
    requires var claims := Token.DecodeToken(t); Truthy(claims) && Token.Expired(claims.value, now)
    ensures var saved := Saved(items, ToObject(u), Some(t));
      Evaluate(true, saved, now) == Expired
      && ReadUser(true, StoreAfter(true, saved, Expired)).None?
  {
    SaveThenReadUser(items, ToObject(u), Some(t));
    ClearThenRead(Saved(items, ToObject(u), Some(t)));
  }

  /**
   * `login` with a live token: the listener's check accepts the saved
   * record, backfilled from the token, and keeps the store.
   */
  lemma {:induction false} LoginWithLiveToken(items: map<string, string>, u: SafeUser, t: string, now: int)
    requires t != ""
    requires var claims := Token.DecodeToken(t); Truthy(claims) && !Token.Expired(claims.value, now)
    ensures var saved := Saved(items, ToObject(u), Some(t));
      var e := Evaluate(true, saved, now);
      e == Valid(Backfill(Normalize(ToObject(u)) + [Member("token", JStr(t))], Token.DecodeToken(t).value))
      && StoreAfter(true, saved, e) == saved
  {
    SaveThenReadUser(items, ToObject(u), Some(t));
  }

  // ---------------------------------------------------------------
  // The hook
  // ---------------------------------------------------------------

  class AuthHook {
    const store: Store
    var user: Option<Obj>
    var isAuthenticated: bool
    var isLoading: bool
    /** `isCheckingRef.current`. */
    var checking: bool
    /** Whether the `auth-change` listener is registered. */
    var subscribed: bool

    /** The first render: no user, loading, no check running, no listener yet. */
    constructor(store: Store)
      ensures this.store == store
      ensures user.None? && !isAuthenticated && isLoading && !checking && !subscribed
    {
      this.store := store;
      user := None;
      isAuthenticated := false;
      isLoading := true;
      checking := false;
      subscribed := false;
    }

    function ViewOf(): View
      reads this
    {
      View(user, isAuthenticated, isLoading)
    }

    /** The state a completed check from storage `items0` and event log `events0` leaves. */
    predicate Checked(items0: map<string, string>, events0: seq<string>, now: int)
      reads this, store
    {
      var e := Evaluate(store.hasWindow, items0, now);
      && ViewOf() == AfterCheck(e)
      && !checking
      && store.items == StoreAfter(store.hasWindow, items0, e)
      && store.events == events0 + if Rejects(e) && store.hasWindow then [AuthEvent] else []
    }

    /** `checkAuth()`: a call while a check is running returns at once. */
    method CheckAuth(now: int)
      modifies this, store
      decreases if checking then 0 else 3
      ensures subscribed == old(subscribed)
      ensures old(checking) ==> unchanged(this) && unchanged(store)
      ensures !old(checking) ==> Checked(old(store.items), old(store.events), now)
    {
      if checking {
        return;
      }
      checking := true;
      var token := store.GetToken();
      var userData := store.GetUser();
      if token.None? || token.value == "" || userData.None? {
        user := None;
        isAuthenticated := false;
        isLoading := false;
        checking := false;
        return;
      }
      var decoded := Token.DecodeToken(token.value);
      if !Truthy(decoded) {
        Reject(now);
        return;
      }
      if Token.Expired(decoded.value, now) {
        Reject(now);
        return;
      }
      var userId := Get(userData.value, "_id");
      if !Truthy(userId) {
        userId := Property(decoded.value, "id");
      }
      var userWithId := Assign(userData.value, "_id", userId);
      user := Some(userWithId);
      isAuthenticated := true;
      isLoading := false;
      checking := false;
    }

    /** The two rejecting exits of `checkAuth`: clear the store, then reset the state and the flag. */
    method Reject(now: int)
      requires checking
      modifies this, store
      decreases 2
      ensures subscribed == old(subscribed)
      ensures store.items == if store.hasWindow then Cleared(old(store.items)) else old(store.items)
      ensures store.events == old(store.events) + if store.hasWindow then [AuthEvent] else []
      ensures ViewOf() == View(None, false, false) && !checking
    {
      store.ClearUser();
      if store.hasWindow {
        DeliverEvent(now);
      }
      user := None;
      isAuthenticated := false;
      isLoading := false;
      checking := false;
    }

    /** An `auth-change` (or cross-tab `storage`) event reaching the listener, if it is registered. */
    method DeliverEvent(now: int)
      modifies this, store
      decreases if checking then 1 else 4
      ensures subscribed == old(subscribed)
      ensures !old(subscribed) || old(checking) ==> unchanged(this) && unchanged(store)
      ensures old(subscribed) && !old(checking) ==> Checked(old(store.items), old(store.events), now)
    {
      if subscribed {
        CheckAuth(now);
      }
    }

    /** The two mount effects, in order: the first check, then the listener. */
    method Mount(now: int)
      modifies this, store
      ensures subscribed
      ensures !old(checking) ==> Checked(old(store.items), old(store.events), now)
      ensures old(checking) ==> ViewOf() == old(ViewOf()) && unchanged(store)
    {
      CheckAuth(now);
      subscribed := true;
    }

    /** The effect's cleanup: the listener is removed. */
    method Unmount()
      modifies this
      ensures !subscribed && ViewOf() == old(ViewOf()) && checking == old(checking)
    {
      subscribed := false;
    }

    /**
     * `login(userData, token)`: save, during which the listener may check
     * the new session, then set the state to the given user regardless.
     */
    method Login(u: SafeUser, t: string, now: int)
      modifies this, store
      ensures ViewOf() == View(Some(ToObject(u)), true, false)
      ensures checking == old(checking) && subscribed == old(subscribed)
      ensures var saved := if store.hasWindow then Saved(old(store.items), ToObject(u), Some(t)) else old(store.items);
        var e := Evaluate(store.hasWindow, saved, now);
        var notified := store.hasWindow && old(subscribed) && !old(checking);
        && store.items == (if notified then StoreAfter(store.hasWindow, saved, e) else saved)
        && store.events == old(store.events) + (if store.hasWindow then [AuthEvent] else [])
                           + (if notified && Rejects(e) then [AuthEvent] else [])
    {
      store.SaveUser(ToObject(u), Some(t));
      if store.hasWindow {
        DeliverEvent(now);
      }
      user := Some(ToObject(u));
      isAuthenticated := true;
      isLoading := false;
    }

    /**
     * `logout()`: clear, during which the listener's check finds no session,
     * then set the state to signed out. `isLoading` is not set here, but
     * the listener's check sets it to false.
     */
    method Logout(now: int)
      modifies this, store
      ensures user.None? && !isAuthenticated
      ensures isLoading == if store.hasWindow && old(subscribed) && !old(checking) then false else old(isLoading)
      ensures checking == old(checking) && subscribed == old(subscribed)
      ensures store.items == if store.hasWindow then Cleared(old(store.items)) else old(store.items)
      ensures store.events == old(store.events) + if store.hasWindow then [AuthEvent] else []
    {
      store.ClearUser();
      if store.hasWindow {
        ClearedIsNoSession(true, old(store.items), now);
        DeliverEvent(now);
      }
      user := None;
      isAuthenticated := false;
    }
  }
}
