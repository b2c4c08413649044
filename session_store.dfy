/**
 * The session store of lib/auth.ts: the signed-in user's record and token,
 * kept as two strings in the browser's `localStorage`, and the
 * `auth-change` event each write dispatches on `window`. Without a window
 * (server-side rendering) every operation does nothing and the readers
 * return `null`.
 */
module SessionStore {
  import opened Wrappers
  import opened Json
  import JsonText

  const StorageKey := "rbac_user"
  const TokenKey := "rbac_token"
  const AuthEvent := "auth-change"

  // ---------------------------------------------------------------
  // RoleType and SafeUserData
  // ---------------------------------------------------------------

  datatype Role = Admin | Manager | Editor | Viewer

  function RoleName(r: Role): string
  {
    match r
    case Admin => "admin"
    case Manager => "manager"
    case Editor => "editor"
    case Viewer => "viewer"
  }

  /**
   * The role a name stands for, if it is one of the four. The source has
   * no such function (it casts); this is the inverse that shows the four
   * names distinct (`RoleOfName`).
   */
  function RoleOf(name: string): (r: Option<Role>)
    ensures r.Some? ==> RoleName(r.value) == name
  {
    if name == "admin" then Some(Admin)
    else if name == "manager" then Some(Manager)
    else if name == "editor" then Some(Editor)
    else if name == "viewer" then Some(Viewer)
    else None
  }

  lemma {:induction false} RoleOfName(r: Role)
    ensures RoleOf(RoleName(r)) == Some(r)
  {
  }

  /** `SafeUserData`: what `login` is given; `id` is the optional `_id`. */
  datatype SafeUser = SafeUser(id: Option<string>, name: string, email: string, role: Role)

  /** The object a `SafeUserData` value is, an absent `_id` having no property. */
  function ToObject(u: SafeUser): (o: Obj)
    ensures WellFormed(JObj(o))
  {
    Record(if u.id.Some? then Some(JStr(u.id.value)) else None, JStr(u.name), JStr(u.email), JStr(RoleName(u.role)))
  }

  /** An object with the properties of `SafeUserData`, in their declaration order. */
  function Record(id: Option<Json>, name: Json, email: Json, role: Json): (o: Obj)
    ensures Keys(o) == (if id.Some? then ["_id"] else []) + ["name", "email", "role"]
  {
    (if id.Some? then [Member("_id", id.value)] else [])
    + [Member("name", name), Member("email", email), Member("role", role)]
  }

  lemma {:induction false} GetRecord(id: Option<Json>, name: Json, email: Json, role: Json, k: string)
    ensures var o := Record(id, name, email, role);
      && Get(o, "_id") == id
      && Get(o, "name") == Some(name) && Get(o, "email") == Some(email) && Get(o, "role") == Some(role)
      && (k != "_id" && k != "name" && k != "email" && k != "role" ==> Get(o, k) == None)
  {
    var t := [Member("name", name), Member("email", email), Member("role", role)];
    GetThree(name, email, role, "_id");
    GetThree(name, email, role, "name");
    GetThree(name, email, role, "email");
    GetThree(name, email, role, "role");
    GetThree(name, email, role, k);
    if id.Some? {
      var m := Member("_id", id.value);
      assert Record(id, name, email, role) == [m] + t;
      GetCons(m, t, "_id");
      GetCons(m, t, "name");
      GetCons(m, t, "email");
      GetCons(m, t, "role");
      GetCons(m, t, k);
    } else {
      assert Record(id, name, email, role) == t;
    }
  }

  lemma {:induction false} GetThree(name: Json, email: Json, role: Json, key: string)
    ensures Get([Member("name", name), Member("email", email), Member("role", role)], key)
         == if key == "name" then Some(name) else if key == "email" then Some(email)
            else if key == "role" then Some(role) else None
  {
    var t2 := [Member("role", role)];
    var t1 := [Member("email", email)] + t2;
    GetCons(Member("role", role), [], key);
    assert [Member("role", role)] + [] == t2;
    GetCons(Member("email", email), t2, key);
    GetCons(Member("name", name), t1, key);
    assert [Member("name", name)] + t1 == [Member("name", name), Member("email", email), Member("role", role)];
  }

  // ---------------------------------------------------------------
  // The record saveUser writes
  // ---------------------------------------------------------------

  /** `v` is the given value when that is neither `null` nor `undefined`, else the default. */
  predicate KeptOrDefault(v: Option<Json>, given: Option<Json>, default: Json)
  {
    if given.Some? && given.value != JNull then v == given else v == Some(default)
  }

  /**
   * `safeUserData`: `_id` only when truthy, `name` and `email` defaulting
   * to `""` and `role` to `"viewer"`, with no check of the values' types.
   * `JSON.stringify` leaves out an `_id` that is `undefined`.
   */
  function Normalize(user: Obj): (o: Obj)
    ensures Keys(o) == (if Truthy(Get(user, "_id")) then ["_id"] else []) + ["name", "email", "role"]
  {
    var id := Get(user, "_id");
    Record(if Truthy(id) then id else None,
           Coalesce(Get(user, "name"), JStr("")),
           Coalesce(Get(user, "email"), JStr("")),
           Coalesce(Get(user, "role"), JStr("viewer")))
  }

  /** The default rules of the projection, field by field; no other property is present. */
  lemma {:induction false} NormalizeFields(user: Obj, k: string)
    ensures var o := Normalize(user);
      && Get(o, "_id") == (if Truthy(Get(user, "_id")) then Get(user, "_id") else None)
      && KeptOrDefault(Get(o, "name"), Get(user, "name"), JStr(""))
      && KeptOrDefault(Get(o, "email"), Get(user, "email"), JStr(""))
      && KeptOrDefault(Get(o, "role"), Get(user, "role"), JStr("viewer"))
      && (k != "_id" && k != "name" && k != "email" && k != "role" ==> Get(o, k) == None)
  {
    var id := Get(user, "_id");
    GetRecord(if Truthy(id) then id else None,
              Coalesce(Get(user, "name"), JStr("")),
              Coalesce(Get(user, "email"), JStr("")),
              Coalesce(Get(user, "role"), JStr("viewer")), k);
  }

  /** No property other than the four of `SafeUserData` survives: a password is dropped. */
  lemma {:induction false} NormalizeOnlySafeKeys(user: Obj, k: string)
    requires HasKey(Normalize(user), k)
    ensures k == "_id" || k == "name" || k == "email" || k == "role"
  {
    var o := Normalize(user);
    var i :| 0 <= i < |o| && o[i].key == k;
    assert Keys(o)[i] == k;
  }

  /** Normalising a record that is already normalised changes nothing. */
  lemma {:induction false} NormalizeIdempotent(user: Obj)
    ensures Normalize(Normalize(user)) == Normalize(user)
  {
    NormalizeFields(user, "");
  }

  /** A well-typed `SafeUserData` is kept as it is, except that an empty `_id` is dropped. */
  lemma {:induction false} NormalizeSafeUser(u: SafeUser)
    ensures Normalize(ToObject(u)) == ToObject(if u.id == Some("") then u.(id := None) else u)
  {
    var id := if u.id.Some? then Some(JStr(u.id.value)) else None;
    NormalizeRecord(id, JStr(u.name), JStr(u.email), JStr(RoleName(u.role)));
  }

  /** Projecting a record keeps its non-null fields and drops a falsy `_id`. */
  lemma {:induction false} NormalizeRecord(id: Option<Json>, name: Json, email: Json, role: Json)
    ensures Normalize(Record(id, name, email, role))
         == Record(if Truthy(id) then id else None, Coalesce(Some(name), JStr("")),
                   Coalesce(Some(email), JStr("")), Coalesce(Some(role), JStr("viewer")))
  {
    GetRecord(id, name, email, role, "");
  }

  lemma {:induction false} NormalizeWellFormed(user: Obj)
    requires WellFormed(JObj(user))
    ensures WellFormed(JObj(Normalize(user)))
  {
    var id := Get(user, "_id");
    GetWellFormed(user, "_id");
    GetWellFormed(user, "name");
    GetWellFormed(user, "email");
    GetWellFormed(user, "role");
    RecordWellFormed(if Truthy(id) then id else None,
      Coalesce(Get(user, "name"), JStr("")),
      Coalesce(Get(user, "email"), JStr("")),
      Coalesce(Get(user, "role"), JStr("viewer")));
  }

  lemma {:induction false} GetWellFormed(o: Obj, k: string)
    requires WellFormed(JObj(o))
    ensures Get(o, k).Some? ==> WellFormed(Get(o, k).value)
  {
    var g := Get(o, k);
    if g.Some? {
      var p :| 0 <= p < |o| && o[p] == Member(k, g.value);
    }
  }

  lemma {:induction false} RecordWellFormed(id: Option<Json>, name: Json, email: Json, role: Json)
    requires id.Some? ==> WellFormed(id.value)
    requires WellFormed(name) && WellFormed(email) && WellFormed(role)
    ensures WellFormed(JObj(Record(id, name, email, role)))
  {
    var o := Record(id, name, email, role);
    var t := [Member("name", name), Member("email", email), Member("role", role)];
    assert UniqueKeys(t);
    if id.Some? {
      assert o == [Member("_id", id.value)] + t;
      forall j | 0 <= j < |t|
        ensures t[j].key != "_id"
      {
      }
    }
  }

  // ---------------------------------------------------------------
  // The storage as a map from keys to strings
  // ---------------------------------------------------------------

  /** What `saveUser(user, token)` leaves in the storage. */
  function Saved(items: map<string, string>, user: Obj, token: Option<string>): (m: map<string, string>)
    ensures StorageKey in m && m[StorageKey] == JsonText.Stringify(JObj(Normalize(user)))
    ensures token.Some? ==> TokenKey in m && m[TokenKey] == token.value
    ensures forall k :: k != StorageKey && (k != TokenKey || token.None?) ==>
      (k in m <==> k in items) && (k in m ==> m[k] == items[k])
  {
    var withToken := if token.Some? then items[TokenKey := token.value] else items;
    withToken[StorageKey := JsonText.Stringify(JObj(Normalize(user)))]
  }

  /** What `clearUser()` leaves in the storage. */
  function Cleared(items: map<string, string>): (m: map<string, string>)
    ensures StorageKey !in m && TokenKey !in m
    ensures forall k :: k != StorageKey && k != TokenKey ==> (k in m <==> k in items) && (k in m ==> m[k] == items[k])
  {
    items - {StorageKey, TokenKey}
  }

  /** `getToken()`. */
  function ReadToken(hasWindow: bool, items: map<string, string>): (t: Option<string>)
    ensures t.Some? <==> hasWindow && TokenKey in items
    ensures t.Some? ==> t.value == items[TokenKey]
  {
    if hasWindow && TokenKey in items then Some(items[TokenKey]) else None
  }

  /** The `token` property of what `getUser()` returns: `token || undefined`. */
  function TokenProperty(items: map<string, string>): (v: Option<Json>)
    ensures v.Some? <==> TokenKey in items && items[TokenKey] != ""
    ensures v.Some? ==> v.value == JStr(items[TokenKey])
  {
    if TokenKey in items && items[TokenKey] != "" then Some(JStr(items[TokenKey])) else None
  }

  /**
   * `getUser()`: the stored record, parsed and spread without validation,
   * with `token` set from the stored token; `None` for no window, no or an
   * empty record, or one `JSON.parse` rejects.
   */
  function ReadUser(hasWindow: bool, items: map<string, string>): (u: Option<Obj>)
    ensures u.Some? ==> Get(u.value, "token") == TokenProperty(items)
  {
    if !hasWindow || StorageKey !in items || items[StorageKey] == "" then None
    else
      match JsonText.Parse(items[StorageKey])
      case None => None
      case Some(v) => Some(Assign(Spread(v), "token", TokenProperty(items)))
  }

  /** `getUser` gives `null` exactly in these cases, and never fails otherwise. */
  lemma {:induction false} ReadUserNone(hasWindow: bool, items: map<string, string>)
    ensures ReadUser(hasWindow, items).None? <==>
      !hasWindow || StorageKey !in items || items[StorageKey] == "" || JsonText.Parse(items[StorageKey]).None?
  {
  }

  /** After `saveUser(u, t)`, `getToken()` returns `t`. */
  lemma {:induction false} SaveThenReadToken(items: map<string, string>, user: Obj, t: string)
    ensures ReadToken(true, Saved(items, user, Some(t))) == Some(t)
  {
  }

  /** `saveUser(u)` without a token rewrites the record only; the stored token is kept. */
  lemma {:induction false} SaveKeepsToken(items: map<string, string>, user: Obj)
    ensures ReadToken(true, Saved(items, user, None)) == ReadToken(true, items)
    ensures TokenProperty(Saved(items, user, None)) == TokenProperty(items)
  {
  }

  /**
   * The store's round trip: after `saveUser(u, t)`, `getUser()` returns
   * the projection of `u` followed by `token`, which is `t` unless `t` is
   * empty (then absent), or the previously stored token when `t` is not given.
   */
  lemma {:induction false} SaveThenReadUser(items: map<string, string>, user: Obj, token: Option<string>)
    requires WellFormed(JObj(user))
    ensures var token' := if token.Some? then (if token.value != "" then Some(JStr(token.value)) else None)
                          else TokenProperty(items);
      ReadUser(true, Saved(items, user, token)) == Some(Normalize(user) + if token'.Some? then [Member("token", token'.value)] else [])
  {
    var m := Saved(items, user, token);
    var o := Normalize(user);
    NormalizeWellFormed(user);
    JsonText.ParseStringify(JObj(o));
    StringifyNotEmpty(JObj(o));
    assert ReadUser(true, m) == Some(Assign(o, "token", TokenProperty(m)));
    NoTokenKey(user);
    AssignAbsent(o, "token", TokenProperty(m));
    SavedTokenProperty(items, user, token);
  }

  /** The `token` property `getUser()` adds after `saveUser(u, t)`. */
  lemma {:induction false} SavedTokenProperty(items: map<string, string>, user: Obj, token: Option<string>)
    ensures TokenProperty(Saved(items, user, token)) ==
      if token.Some? then (if token.value != "" then Some(JStr(token.value)) else None)
      else TokenProperty(items)
  {
  }

  lemma {:induction false} StringifyNotEmpty(j: Json)
    ensures JsonText.Stringify(j) != ""
  {
    JsonText.StringifyStart(j);
  }

  lemma {:induction false} NoTokenKey(user: Obj)
    ensures !HasKey(Normalize(user), "token")
  {
    if HasKey(Normalize(user), "token") {
      NormalizeOnlySafeKeys(user, "token");
    }
  }

  /** Setting a property an object does not have appends it, or does nothing for `undefined`. */
  lemma {:induction false} AssignAbsent(o: Obj, k: string, v: Option<Json>)
    requires !HasKey(o, k)
    ensures Assign(o, k, v) == o + if v.Some? then [Member(k, v.value)] else []
  {
    if o != [] {
      AbsentTail(o, k);
      AssignAbsent(o[1..], k, v);
      AssignAbsentStep(o, k, v);
    }
  }

  lemma {:induction false} AbsentTail(o: Obj, k: string)
    requires o != [] && !HasKey(o, k)
    ensures o[0].key != k && !HasKey(o[1..], k)
  {
    assert o[0].key != k;
  }

  lemma {:induction false} AssignAbsentStep(o: Obj, k: string, v: Option<Json>)
    requires o != [] && o[0].key != k
    requires Assign(o[1..], k, v) == o[1..] + if v.Some? then [Member(k, v.value)] else []
    ensures Assign(o, k, v) == o + if v.Some? then [Member(k, v.value)] else []
  {
    var added: Obj := if v.Some? then [Member(k, v.value)] else [];
    AssignCons(o, k, v);
    assert [o[0]] + (o[1..] + added) == ([o[0]] + o[1..]) + added;
    assert [o[0]] + o[1..] == o;
  }

  /** After `clearUser()`, both readers return `null`. */
  lemma {:induction false} ClearThenRead(items: map<string, string>)
    ensures ReadUser(true, Cleared(items)) == None && ReadToken(true, Cleared(items)) == None
  {
  }

  /** Without a window both readers return `null`. */
  lemma {:induction false} NoWindowReads(items: map<string, string>)
    ensures ReadUser(false, items) == None && ReadToken(false, items) == None
  {
  }

  // ---------------------------------------------------------------
  // The store
  // ---------------------------------------------------------------

  /**
   * The storage operations as the source runs them, step by step. Each
   * method is proved against the function above that specifies it
   * (`Saved`, `ReadUser`, `ReadToken`, `Cleared`), and the lemmas about
   * the store are stated on those functions.
   */
  class Store {
    /** Whether `window` exists. */
    const hasWindow: bool
    /** `localStorage`. */
    var items: map<string, string>
    /** The events dispatched on `window`, oldest first. */
    var events: seq<string>

    constructor(hasWindow: bool, items: map<string, string>)
      ensures this.hasWindow == hasWindow && this.items == items && events == []
    {
      this.hasWindow := hasWindow;
      this.items := items;
      events := [];
    }

    /** `saveUser(user, token)`: the token first (when given), then the record, then one event. */
    method SaveUser(user: Obj, token: Option<string>)
      modifies this
      ensures items == if hasWindow then Saved(old(items), user, token) else old(items)
      ensures events == old(events) + if hasWindow then [AuthEvent] else []
    {
      if !hasWindow {
        return;
      }
      if token.Some? {
        items := items[TokenKey := token.value];
      }
      var safeUserData := Normalize(user);
      items := items[StorageKey := JsonText.Stringify(JObj(safeUserData))];
      events := events + [AuthEvent];
    }

    /** `getUser()`. */
    method GetUser() returns (user: Option<Obj>)
      ensures user == ReadUser(hasWindow, items)
    {
      if !hasWindow {
        return None;
      }
      if StorageKey !in items || items[StorageKey] == "" {
        return None;
      }
      var userData := JsonText.Parse(items[StorageKey]);
      if userData.None? {
        return None;
      }
      var token := if TokenKey in items then Some(items[TokenKey]) else None;
      var tokenProperty := if token.Some? && token.value != "" then Some(JStr(token.value)) else None;
      return Some(Assign(Spread(userData.value), "token", tokenProperty));
    }

    /** `getToken()`. */
    method GetToken() returns (token: Option<string>)
      ensures token == ReadToken(hasWindow, items)
    {
      if !hasWindow {
        return None;
      }
      return if TokenKey in items then Some(items[TokenKey]) else None;
    }

    /** `clearUser()`: both keys removed, then one event. */
    method ClearUser()
      modifies this
      ensures items == if hasWindow then Cleared(old(items)) else old(items)
      ensures events == old(events) + if hasWindow then [AuthEvent] else []
    {
      if !hasWindow {
        return;
      }
      items := items - {StorageKey};
      items := items - {TokenKey};
      events := events + [AuthEvent];
    }
  }
}
