/** The permissions controller: the groups payload for the permissions
    table, the password login, the OAuth authorize redirect and callback,
    and the derivation of the account fields stored for a user profile.
    Decoded JSON and PHP arrays are values of `Json`; the calls into the
    session, OAuth and account code are not executed but recorded as
    effects, with their answers passed in. */
module Permissions {
  import opened Strings

  datatype Option<T> = None | Some(value: T)

  /** A decoded JSON value or PHP array (string keys only). */
  datatype Json = JNull | JBool(b: bool) | JInt(i: int) | JStr(s: string) | JObject(fields: map<string, Json>)

  type Object = map<string, Json>

  /** `isset($o[k])`: the key is present and its value is not null. */
  predicate IsSet(o: Object, k: string)
  {
    k in o && o[k] != JNull
  }

  /** `$o[k]`: a missing key reads as null. */
  function Get(o: Object, k: string): (r: Json)
    ensures IsSet(o, k) ==> r == o[k]
    ensures !IsSet(o, k) ==> r == JNull
  {
    if k in o then o[k] else JNull
  }

  /** `isset($o[k1][k2]...)` and the value found: every step must reach an
      array holding the next key with a non-null value. */
  function At(o: Object, path: seq<string>): (r: Option<Json>)
    requires |path| >= 1
    ensures r.Some? ==> r.value != JNull
    decreases |path|
  {
    if !IsSet(o, path[0]) then None
    else if |path| == 1 then Some(o[path[0]])
    else match o[path[0]]
      case JObject(inner) => At(inner, path[1..])
      case _ => None
  }

  /** The two nested reads `storeUser` makes: each path is found exactly
      when every array on it exists and the last key is set, and the value
      found is the one stored there. */
  lemma AtImagePaths(res: Object)
    ensures At(res, ["image", "link"]).Some? <==>
      "image" in res && res["image"].JObject? && IsSet(res["image"].fields, "link")
    ensures At(res, ["image", "link"]).Some? ==> At(res, ["image", "link"]).value == res["image"].fields["link"]
    ensures At(res, ["image", "versions", "medium"]).Some? <==>
      "image" in res && res["image"].JObject? && "versions" in res["image"].fields &&
      res["image"].fields["versions"].JObject? && IsSet(res["image"].fields["versions"].fields, "medium")
    ensures At(res, ["image", "versions", "medium"]).Some? ==>
      At(res, ["image", "versions", "medium"]).value == res["image"].fields["versions"].fields["medium"]
  {
    assert ["image", "link"][1..] == ["link"];
    assert ["image", "versions", "medium"][1..] == ["versions", "medium"];
    assert ["versions", "medium"][1..] == ["medium"];
  }

  /** PHP 8's `$v == ""`: true for the empty string, null and false. Under
      PHP 7 the integer 0 would compare equal too; PHP 8 is assumed. */
  predicate LooselyEmpty(v: Json)
  {
    v == JStr("") || v == JNull || v == JBool(false)
  }

  // ---------------------------------------------------------------------
  // groups_get
  // ---------------------------------------------------------------------

  /** A column of the permissions table: its "label" (the heading) and
      its "field". */
  datatype Column = Column(heading: Json, field: Json)

  /** The column of one group: its name as label, its id as field. */
  function GroupColumn(group: Object): Column
  {
    Column(Get(group, "name"), Get(group, "id"))
  }

  /** `array_map` over the groups: one column per group, in order. */
  function GroupColumns(groups: seq<Object>): (r: seq<Column>)
    ensures |r| == |groups|
    ensures forall i :: 0 <= i < |groups| ==> r[i] == GroupColumn(groups[i])
    decreases |groups|
  {
    if groups == [] then [] else [GroupColumn(groups[0])] + GroupColumns(groups[1..])
  }

  const LoginColumn: Column := Column(JStr("Login"), JStr("login"))

  /** The payload's columns: a Login column first, then one per group in
      the order of the groups list. */
  function Columns(groups: seq<Object>): (r: seq<Column>)
    ensures |r| == 1 + |groups|
    ensures r[0] == LoginColumn
    ensures forall i :: 0 <= i < |groups| ==>
      r[i + 1].heading == Get(groups[i], "name") && r[i + 1].field == Get(groups[i], "id")
  {
    var rest := GroupColumns(groups);
    assert forall i :: 0 <= i < |groups| ==> ([LoginColumn] + rest)[i + 1] == rest[i];
    [LoginColumn] + rest
  }

  /** `array_merge($value, array("login" => $key))`: the row of one user
      entry, holding the entry's fields and "login" set to the key, which
      overrides any "login" the entry had. */
  function WithLogin(value: Object, key: string): (r: Object)
    ensures r.Keys == value.Keys + {"login"}
    ensures r["login"] == JStr(key)
    ensures forall k :: k in value && k != "login" ==> r[k] == value[k]
  {
    value["login" := JStr(key)]
  }

  /** The `foreach` over the user map building the payload's values: one
      row per entry, in iteration order; each row is the entry's fields
      with "login" set to the entry's key, overriding any "login" it had. */
  method GroupRows(users: seq<(string, Object)>) returns (values: seq<Object>)
    ensures |values| == |users|
    ensures forall i :: 0 <= i < |users| ==>
      values[i].Keys == users[i].1.Keys + {"login"} &&
      values[i]["login"] == JStr(users[i].0) &&
      forall k :: k in users[i].1 && k != "login" ==> values[i][k] == users[i].1[k]
  {
    values := [];
    var n := 0;
    while n < |users|
      invariant 0 <= n <= |users|
      invariant |values| == n
      invariant forall i :: 0 <= i < n ==> values[i] == WithLogin(users[i].1, users[i].0)
    {
      var (key, value) := users[n];
      values := values + [WithLogin(value, key)];
      n := n + 1;
    }
  }

  /** The JSON payload of `groups_get`. */
  datatype GroupsPayload = GroupsPayload(columns: seq<Column>, values: seq<Object>)

  /** `groups_get` on what `getUserGroups` returned (the groups list and
      the user map): a 200 response with the columns and the rows. */
  method GroupsGet(groups: seq<Object>, users: seq<(string, Object)>) returns (status: int, payload: GroupsPayload)
    ensures status == 200
    ensures payload.columns == Columns(groups)
    ensures |payload.values| == |users|
    ensures forall i :: 0 <= i < |users| ==>
      payload.values[i].Keys == users[i].1.Keys + {"login"} && payload.values[i]["login"] == JStr(users[i].0)
    ensures forall i, k :: 0 <= i < |users| && k in users[i].1 && k != "login" ==>
      payload.values[i][k] == users[i].1[k]
  {
    var values := GroupRows(users);
    payload := GroupsPayload(Columns(groups), values);
    status := 200;
  }

  // ---------------------------------------------------------------------
  // storeUser
  // ---------------------------------------------------------------------

  /** The seven arguments of `createAccount` and `updateAccount`, in order. */
  datatype AccountFields = AccountFields(
    id: Json, login: Json, firstName: Json, lastName: Json,
    displayName: Json, avatarUrl: Json, coalition: Json)

  /** The account call `storeUser` makes. */
  datatype AccountCall = CreateAccount(fields: AccountFields) | UpdateAccount(fields: AccountFields)

  /** The first name: the usual first name when set, else the first name. */
  function FirstName(res: Object): Json
  {
    if IsSet(res, "usual_first_name") then res["usual_first_name"] else Get(res, "first_name")
  }

  /** The display name: the usual full name when set, else the display name. */
  function DisplayName(res: Object): Json
  {
    if IsSet(res, "usual_full_name") then res["usual_full_name"] else Get(res, "displayname")
  }

  /** The avatar as a decision list: the medium image when set and not
      loosely empty; else the image link when set; else the medium image
      when set at all; else the empty string. */
  function AvatarFor(res: Object): Json
  {
    var medium, link := At(res, ["image", "versions", "medium"]), At(res, ["image", "link"]);
    if medium.Some? && !LooselyEmpty(medium.value) then medium.value
    else if link.Some? then link.value
    else if medium.Some? then medium.value
    else JStr("")
  }

  /** The coalition number: `coalition_id` when set, else -1. */
  function CoalitionFor(res: Object): Json
  {
    if IsSet(res, "coalition_id") then res["coalition_id"] else JInt(-1)
  }

  /** The account fields derived from a profile. */
  function ProfileFields(res: Object): AccountFields
  {
    AccountFields(Get(res, "id"), Get(res, "login"), FirstName(res), Get(res, "last_name"),
                  DisplayName(res), AvatarFor(res), CoalitionFor(res))
  }

  /** `storeUser`: derives the fields step by step, then creates the account
      when `accountExists` (the `$exists` argument) is 0 and updates it otherwise, with the same arguments. */
  method StoreUser(res: Object, accountExists: int) returns (call: AccountCall)
    ensures call.fields == ProfileFields(res)
    ensures call.CreateAccount? <==> accountExists == 0
  {
    var goodFirstName := if IsSet(res, "usual_first_name") then res["usual_first_name"] else Get(res, "first_name");
    var goodDisplayName := if IsSet(res, "usual_full_name") then res["usual_full_name"] else Get(res, "displayname");

    var goodAvatarUrl := JStr("");
    var medium := At(res, ["image", "versions", "medium"]);
    if medium.Some? {
      goodAvatarUrl := medium.value;
    }
    var link := At(res, ["image", "link"]);
    if LooselyEmpty(goodAvatarUrl) && link.Some? {
      goodAvatarUrl := link.value;
    }

    var goodNumber := JInt(-1);
    if IsSet(res, "coalition_id") {
      goodNumber := res["coalition_id"];
    }

    var fields := AccountFields(Get(res, "id"), Get(res, "login"), goodFirstName, Get(res, "last_name"),
                                goodDisplayName, goodAvatarUrl, goodNumber);
    if accountExists == 0 {
      call := CreateAccount(fields);
    } else {
      call := UpdateAccount(fields);
    }
  }

  /** The avatar is never null: absent images give the empty string. */
  lemma AvatarNeverNull(res: Object)
    ensures AvatarFor(res) != JNull
    ensures At(res, ["image", "versions", "medium"]).None? && At(res, ["image", "link"]).None? ==> AvatarFor(res) == JStr("")
  {
  }

  /** The avatar comes from the profile's image when it has one: it is the
      medium version or the link, and the medium version whenever that is a
      non-empty string. */
  lemma AvatarFromImage(res: Object)
    requires At(res, ["image", "versions", "medium"]).Some? || At(res, ["image", "link"]).Some?
    ensures var medium, link := At(res, ["image", "versions", "medium"]), At(res, ["image", "link"]);
      (medium.Some? && AvatarFor(res) == medium.value) || (link.Some? && AvatarFor(res) == link.value)
    ensures var medium := At(res, ["image", "versions", "medium"]);
      medium.Some? && medium.value.JStr? && medium.value.s != "" ==> AvatarFor(res) == medium.value
  {
  }

  /** A usual name set to null counts as unset: the plain name is used. */
  lemma NullUsualNameFallsBack(res: Object)
    requires "usual_first_name" in res && res["usual_first_name"] == JNull
    ensures FirstName(res) == Get(res, "first_name")
  {
  }

  // ---------------------------------------------------------------------
  // login, loginapi_authorize, loginapi_callback
  // ---------------------------------------------------------------------

  /** What a request handler does, in order. */
  datatype Effect =
    | Respond(status: int)
    | LoginUser(login: Json, password: Json, checkPassword: bool)
    | LoginWay(login: Json)
    | Redirect(location: string)
    | Store(call: AccountCall)

  /** `login`: without both a login and a password it answers 400 and
      checks nothing; otherwise it checks the credentials (`loginOk` is the
      answer) and opens the session only when they are right. */
  function Login(post: Object, loginOk: bool): (effects: seq<Effect>)
    ensures |effects| >= 1
    ensures !(IsSet(post, "login") && IsSet(post, "password")) <==> effects == [Respond(400)]
    ensures IsSet(post, "login") && IsSet(post, "password") ==>
      |effects| == (if loginOk then 2 else 1) &&
      effects[0] == LoginUser(post["login"], post["password"], true)
    ensures forall e :: e in effects && e.LoginWay? ==> e == LoginWay(post["login"])
    ensures (exists e :: e in effects && e.LoginWay?) <==> IsSet(post, "login") && IsSet(post, "password") && loginOk
  {
    if IsSet(post, "login") && IsSet(post, "password") then
      var e := [LoginUser(post["login"], post["password"], true)] + (if loginOk then [LoginWay(post["login"])] else []);
      assert e[0].LoginUser? && e != [Respond(400)];
      assert loginOk ==> e[1] in e && e[1] == LoginWay(post["login"]);
      e
    else [Respond(400)]
  }

  /** The text `getenv` contributes to a concatenation: an unset variable
      gives false, which concatenates as the empty string. */
  function EnvText(v: Option<string>): string
  {
    if v.Some? then v.value else ""
  }

  const AuthorizeBase: string := "https://api.intra.42.fr/oauth/authorize?response_type=code"

  /** The OAuth authorize URL for the application id and the front-end
      prefix: the base, then the client id, the redirect back to the front
      end's /loginapi page and the public scope, each after an `&`. */
  function AuthorizeUrl(apiUid: Option<string>, frontPrefix: Option<string>): (r: string)
    ensures |r| > |AuthorizeBase| && r[..|AuthorizeBase|] == AuthorizeBase && r[|AuthorizeBase|] == '&'
  {
    AuthorizeBase + ("&client_id=" + EnvText(apiUid) + "&redirect_uri=" + EnvText(frontPrefix) + "/loginapi" + "&scope=public")
  }

  /** `loginapi_authorize`: a redirect to the authorize URL. */
  function LoginApiAuthorize(apiUid: Option<string>, frontPrefix: Option<string>): seq<Effect>
  {
    [Redirect("Location: " + AuthorizeUrl(apiUid, frontPrefix))]
  }

  /** `loginapi_authorize` answers with one redirect and nothing else; its
      header sends the browser to the authorize endpoint with the client id,
      the callback address and the scope appended. */
  lemma AuthorizeRedirects(apiUid: Option<string>, frontPrefix: Option<string>)
    ensures var effects := LoginApiAuthorize(apiUid, frontPrefix);
      |effects| == 1 && effects[0].Redirect? &&
      effects[0].location == "Location: " + AuthorizeBase + "&" + Join(QueryParts(apiUid, frontPrefix), '&')
  {
    AuthorizeUrlJoinsParts(apiUid, frontPrefix);
  }

  /** The parameters the URL adds after the base: the client id, the
      redirect back to the front end's /loginapi page and the public scope. */
  function QueryParts(apiUid: Option<string>, frontPrefix: Option<string>): seq<string>
  {
    ["client_id=" + EnvText(apiUid), "redirect_uri=" + EnvText(frontPrefix) + "/loginapi", "scope=public"]
  }

  /** The URL is the base followed by the parameters, each after an `&`. */
  lemma AuthorizeUrlJoinsParts(apiUid: Option<string>, frontPrefix: Option<string>)
    ensures AuthorizeUrl(apiUid, frontPrefix) == AuthorizeBase + "&" + Join(QueryParts(apiUid, frontPrefix), '&')
  {
    var u, f := EnvText(apiUid), EnvText(frontPrefix);
    var p := QueryParts(apiUid, frontPrefix);
    assert p[1..][1..] == [p[2]];
    assert Join(p[1..], '&') == p[1] + ['&'] + p[2];
    assert Join(p, '&') == p[0] + ['&'] + (p[1] + ['&'] + p[2]);
    QueryText(u, f);
  }

  /** The query text the code concatenates, regrouped by parameter. */
  lemma QueryText(u: string, f: string)
    ensures "&client_id=" + u + "&redirect_uri=" + f + "/loginapi" + "&scope=public"
         == "&" + (("client_id=" + u) + ['&'] + (("redirect_uri=" + f + "/loginapi") + ['&'] + "scope=public"))
  {
    var amp, p0, p1, p2 := "&", "client_id=", "redirect_uri=", "scope=public";
    assert "&client_id=" == amp + p0;
    assert "&redirect_uri=" == ['&'] + p1;
    assert "&scope=public" == ['&'] + p2;
  }

  /** When neither setting holds an `&`, the parameters the code appends
      after `response_type=code` come back one by one from a split of their
      text on `&` (the text after the base's `&` that follows it), so the
      client id and the redirect target cannot be confused with the other
      parameters. */
  lemma AuthorizeUrlParts(apiUid: Option<string>, frontPrefix: Option<string>)
    requires '&' !in EnvText(apiUid) && '&' !in EnvText(frontPrefix)
    ensures Split(Join(QueryParts(apiUid, frontPrefix), '&'), '&') ==
      ["client_id=" + EnvText(apiUid), "redirect_uri=" + EnvText(frontPrefix) + "/loginapi", "scope=public"]
  {
    var p := QueryParts(apiUid, frontPrefix);
    assert '&' !in p[0] && '&' !in p[1] && '&' !in p[2];
    SplitJoin(p, '&');
  }

  /** `loginapi_callback` once the code has been exchanged and the profile
      `me` fetched (the exchange, its 406 answers and the 401 answer are
      outside the model). `loginFound` is what the login check answers. */
  method LoginApiCallback(post: Object, me: Object, loginFound: bool) returns (effects: seq<Effect>)
    ensures !IsSet(post, "code") ==> effects == [Respond(400)]
    ensures IsSet(post, "code") ==>
      |effects| == 3 &&
      effects[0] == LoginUser(Get(me, "login"), JNull, false) &&
      effects[1].Store? && effects[1].call.fields == ProfileFields(me) &&
      (effects[1].call.CreateAccount? <==> !loginFound) &&
      effects[2] == LoginWay(Get(me, "login"))
  {
    if IsSet(post, "code") {
      effects := [LoginUser(Get(me, "login"), JNull, false)];
      var call;
      if !loginFound {
        call := StoreUser(me, 0);
      } else {
        call := StoreUser(me, 1);
      }
      effects := effects + [Store(call)];
      effects := effects + [LoginWay(Get(me, "login"))];
    } else {
      effects := [Respond(400)];
    }
  }
}
