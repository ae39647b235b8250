/** The request helpers of the admin backend: who made the request, from
    which address, with which parameters, and under which URL template it is
    logged. Framework objects are replaced by plain inputs: the cached
    attributes a middleware may have put on the request are `Option`s, the
    `META` dictionary is a map, query and form parameters are lists of
    (key, value) pairs, the decoded body is a JSON value, and the router's
    match is a list of positional values plus an ordered list of named ones. */
module RequestUtil {
  import opened Wrappers
  import opened Text
  import opened Json

  type Pair = (string, string)

  // ---------------------------------------------------------------------
  // get_request_user

  /** A user object: Django's `AnonymousUser` or an account, which may or may
      not be authenticated. Every user object is truthy. */
  datatype User = AnonymousUser | Account(username: string, isAuthenticated: bool)

  predicate IsAuthenticated(u: User) {
    u.Account? && u.isAuthenticated
  }

  /** What one configured authenticator does with the request: it raises,
      it returns `None`, or it returns a `(user, token)` pair. */
  datatype AuthOutcome = Raises | NoCredentials | Authenticated(user: User, token: string)

  /** The part of the request that `get_request_user` writes: its `user`
      attribute, which may be missing. */
  class Request {
    var user: Option<User>

    constructor (user: Option<User>)
      ensures this.user == user
    {
      this.user := user;
    }
  }

  /** The index of the first authenticator that returns a pair, or the
      number of authenticators when none does. */
  function FirstSuccess(outcomes: seq<AuthOutcome>): (k: nat)
    ensures k <= |outcomes|
    ensures forall j | 0 <= j < k :: !outcomes[j].Authenticated?
    ensures k < |outcomes| ==> outcomes[k].Authenticated?
  {
    if outcomes == [] then 0
    else if outcomes[0].Authenticated? then 0
    else 1 + FirstSuccess(outcomes[1..])
  }

  /** The user returned and the request's `user` attribute afterwards. */
  datatype Resolution = Resolution(user: User, requestUser: Option<User>)

  /** What `get_request_user` returns and leaves on the request, given the
      request's user beforehand and the outcomes of the configured
      authenticators in order. */
  function ResolveUser(current: Option<User>, outcomes: seq<AuthOutcome>, authenticate: bool): (res: Resolution)
    // an authenticated user is kept, whatever the authenticators would do
    ensures current.Some? && IsAuthenticated(current.value) ==> res == Resolution(current.value, current)
    // the request is written only with authenticate set, and then with the returned user
    ensures res.requestUser != current ==> authenticate && res.requestUser == Some(res.user)
    // with no authenticator succeeding: the user as it was, or the anonymous user
    ensures (forall j | 0 <= j < |outcomes| :: !outcomes[j].Authenticated?) ==>
      res.requestUser == current &&
      res.user == (if current.Some? then current.value else AnonymousUser)
    // the result is never invented: it is the current user, an authenticator's user or the sentinel
    ensures || res.user == AnonymousUser
            || (current.Some? && res.user == current.value)
            || (exists j | 0 <= j < |outcomes| :: outcomes[j].Authenticated? && outcomes[j].user == res.user)
  {
    if current.Some? && IsAuthenticated(current.value) then
      Resolution(current.value, current)
    else
      var k := FirstSuccess(outcomes);
      if k < |outcomes| then
        var u := outcomes[k].user;
        Resolution(u, if authenticate then Some(u) else current)
      else
        Resolution(if current.Some? then current.value else AnonymousUser, current)
  }

  /** Authenticators that raise or return `None` in front of the others are
      skipped as if they were not configured. */
  lemma {:induction false} FirstSuccessSkipsFailures(failed: seq<AuthOutcome>, rest: seq<AuthOutcome>)
    requires forall j | 0 <= j < |failed| :: !failed[j].Authenticated?
    ensures FirstSuccess(failed + rest) == |failed| + FirstSuccess(rest)
    decreases |failed|
  {
    if failed != [] {
      assert (failed + rest)[1..] == failed[1..] + rest;
      FirstSuccessSkipsFailures(failed[1..], rest);
    } else {
      assert failed + rest == rest;
    }
  }

  lemma ResolveUserSkipsFailures(current: Option<User>, failed: seq<AuthOutcome>, rest: seq<AuthOutcome>, authenticate: bool)
    requires forall j | 0 <= j < |failed| :: !failed[j].Authenticated?
    ensures ResolveUser(current, failed + rest, authenticate) == ResolveUser(current, rest, authenticate)
  {
    FirstSuccessSkipsFailures(failed, rest);
    var k := FirstSuccess(rest);
    if k < |rest| {
      assert (failed + rest)[|failed| + k] == rest[k];
    }
  }

  /** The first authenticator that returns a pair decides the user; the
      request is written with it exactly when `authenticate` is set. */
  lemma FirstSuccessWins(current: Option<User>, failed: seq<AuthOutcome>, u: User, token: string,
                         rest: seq<AuthOutcome>, authenticate: bool)
    requires !(current.Some? && IsAuthenticated(current.value))
    requires forall j | 0 <= j < |failed| :: !failed[j].Authenticated?
    ensures ResolveUser(current, failed + [Authenticated(u, token)] + rest, authenticate)
            == Resolution(u, if authenticate then Some(u) else current)
  {
    assert failed + [Authenticated(u, token)] + rest == failed + ([Authenticated(u, token)] + rest);
    ResolveUserSkipsFailures(current, failed, [Authenticated(u, token)] + rest, authenticate);
  }

  /** `get_request_user`: keeps an authenticated user; otherwise tries the
      authenticators in order, skipping those that raise or find no
      credentials, and stores the first user found on the request when
      `authenticate` is set; falls back to the user as it was or to the
      anonymous user. Never raises. */
  method GetRequestUser(request: Request, outcomes: seq<AuthOutcome>, authenticate: bool) returns (user: User)
    modifies request
    ensures Resolution(user, request.user) == ResolveUser(old(request.user), outcomes, authenticate)
  {
    var current := request.user;
    if current.Some? && IsAuthenticated(current.value) {
      return current.value;
    }
    var i := 0;
    while i < |outcomes|
      invariant i <= |outcomes|
      invariant forall j | 0 <= j < i :: !outcomes[j].Authenticated?
      invariant request.user == old(request.user) == current
    {
      match outcomes[i] {
        case Authenticated(u, _) =>
          if authenticate {
            request.user := Some(u);
          }
          return u;
        case _ =>
          // the authenticator raised or returned None: try the next one
      }
      i := i + 1;
    }
    user := if current.Some? then current.value else AnonymousUser;
  }

  // ---------------------------------------------------------------------
  // get_request_ip

  const REMOTE_ADDR := "REMOTE_ADDR"
  const HTTP_X_FORWARDED_FOR := "HTTP_X_FORWARDED_FOR"
  const UNKNOWN_IP := "unknown"

  /** `request.META.get(key, '')`. */
  function MetaGet(meta: map<string, string>, key: string): string {
    if key in meta then meta[key] else ""
  }

  /** `get_request_ip`: a cached non-empty `request_ip`, else a non-empty
      `REMOTE_ADDR`, else the stripped last entry of `X-Forwarded-For`, else
      `"unknown"`. */
  function GetRequestIp(requestIp: Option<string>, meta: map<string, string>): (ip: string)
    ensures TruthyText(requestIp) ==> ip == requestIp.value
    ensures !TruthyText(requestIp) && MetaGet(meta, REMOTE_ADDR) != "" ==> ip == meta[REMOTE_ADDR]
    ensures !TruthyText(requestIp) && MetaGet(meta, REMOTE_ADDR) == "" && MetaGet(meta, HTTP_X_FORWARDED_FOR) == "" ==>
      ip == UNKNOWN_IP
    // an address taken from the forwarded-for header is one entry of it: no comma, no outer whitespace
    ensures !TruthyText(requestIp) && MetaGet(meta, REMOTE_ADDR) == "" && MetaGet(meta, HTTP_X_FORWARDED_FOR) != "" ==>
      ',' !in ip && (ip == [] || (!IsSpace(ip[0]) && !IsSpace(ip[|ip| - 1])))
  {
    if TruthyText(requestIp) then requestIp.value
    else
      var remote := MetaGet(meta, REMOTE_ADDR);
      if remote != "" then remote
      else
        var forwardedFor := MetaGet(meta, HTTP_X_FORWARDED_FOR);
        if forwardedFor != "" then
          var parts := Split(forwardedFor, ',');
          Strip(parts[|parts| - 1])
        else UNKNOWN_IP
  }

  /** The address taken from `X-Forwarded-For` is its last entry: when the
      header is some text ending in a comma (or nothing), then whitespace, an
      address and whitespace, the result is that address. */
  lemma ForwardedForLastEntry(requestIp: Option<string>, meta: map<string, string>,
                              head: string, front: string, address: string, back: string)
    requires !TruthyText(requestIp) && MetaGet(meta, REMOTE_ADDR) == ""
    requires HTTP_X_FORWARDED_FOR in meta && meta[HTTP_X_FORWARDED_FOR] == head + front + address + back
    requires head == [] || head[|head| - 1] == ','
    requires ',' !in front + address + back
    requires AllSpace(front) && AllSpace(back)
    requires address == [] || (!IsSpace(address[0]) && !IsSpace(address[|address| - 1]))
    requires meta[HTTP_X_FORWARDED_FOR] != ""
    ensures GetRequestIp(requestIp, meta) == address
  {
    var tail := front + address + back;
    assert meta[HTTP_X_FORWARDED_FOR] == head + tail;
    LastPiece(head, tail, ',');
    StripPadded(front, address, back);
  }

  lemma ForwardedForExample()
    ensures GetRequestIp(None, map[HTTP_X_FORWARDED_FOR := "1.1.1.1, 2.2.2.2"]) == "2.2.2.2"
  {
    var meta := map[HTTP_X_FORWARDED_FOR := "1.1.1.1, 2.2.2.2"];
    assert meta[HTTP_X_FORWARDED_FOR] == "1.1.1.1," + " " + "2.2.2.2" + "";
    ForwardedForLastEntry(None, meta, "1.1.1.1,", " ", "2.2.2.2", "");
  }

  /** A trailing comma leaves an empty last entry, and that is the result. */
  lemma ForwardedForTrailingCommaExample()
    ensures GetRequestIp(None, map[HTTP_X_FORWARDED_FOR := "1.1.1.1, "]) == ""
  {
    var meta := map[HTTP_X_FORWARDED_FOR := "1.1.1.1, "];
    assert meta[HTTP_X_FORWARDED_FOR] == "1.1.1.1," + " " + "" + "";
    ForwardedForLastEntry(None, meta, "1.1.1.1,", " ", "", "");
  }

  // ---------------------------------------------------------------------
  // get_request_data

  predicate IsLastKey(ps: seq<Pair>, i: int)
    requires 0 <= i < |ps|
  {
    forall j | i < j < |ps| :: ps[j].0 != ps[i].0
  }

  /** `QueryDict.dict()`: one entry per key, holding the key's last value. */
  function DictOf(ps: seq<Pair>): map<string, string>
  {
    if ps == [] then map[]
    else DictOf(ps[..|ps| - 1])[ps[|ps| - 1].0 := ps[|ps| - 1].1]
  }

  /** Every key of the pairs is a key of the dict. */
  lemma {:induction false} DictOfHasEveryKey(ps: seq<Pair>, i: int)
    requires 0 <= i < |ps|
    ensures ps[i].0 in DictOf(ps)
    decreases |ps|
  {
    if i < |ps| - 1 {
      var init := ps[..|ps| - 1];
      assert init[i] == ps[i];
      DictOfHasEveryKey(init, i);
    }
  }

  /** The dict has no key that is not among the pairs. */
  lemma {:induction false} DictOfOnlyItsKeys(ps: seq<Pair>, k: string)
    requires k in DictOf(ps)
    ensures exists i | 0 <= i < |ps| :: ps[i].0 == k
    decreases |ps|
  {
    var init := ps[..|ps| - 1];
    if k != ps[|ps| - 1].0 {
      DictOfOnlyItsKeys(init, k);
      var i :| 0 <= i < |init| && init[i].0 == k;
      assert ps[i] == init[i];
    }
  }

  /** A key holds the value of its last pair. */
  lemma {:induction false} DictOfLastValue(ps: seq<Pair>, i: int)
    requires 0 <= i < |ps| && IsLastKey(ps, i)
    ensures ps[i].0 in DictOf(ps) && DictOf(ps)[ps[i].0] == ps[i].1
    decreases |ps|
  {
    if i < |ps| - 1 {
      var init := ps[..|ps| - 1];
      assert init[i] == ps[i];
      assert IsLastKey(init, i);
      DictOfLastValue(init, i);
    }
  }

  /** `{**dict(a), **dict(b)}` is the dict of all the pairs of `a` then `b`. */
  lemma {:induction false} MergeIsDictOfConcat(a: seq<Pair>, b: seq<Pair>)
    ensures DictOf(a) + DictOf(b) == DictOf(a + b)
    decreases |b|
  {
    if b == [] {
      assert a + b == a;
    } else {
      var init := b[..|b| - 1];
      assert (a + b)[..|a + b| - 1] == a + init;
      assert (a + b)[|a + b| - 1] == b[|b| - 1];
      MergeIsDictOfConcat(a, init);
    }
  }

  function AsJson(d: map<string, string>): (m: map<string, Value>)
    ensures m.Keys == d.Keys && forall k | k in d :: m[k] == Str(d[k])
  {
    map k | k in d :: Str(d[k])
  }

  const DATA_KEY := "data"

  /** `get_request_data`. `requestData` is a value cached on the request;
      `body` is the decoded body, `None` when the raw body is empty. Without a
      truthy cached value the result is always a mapping. */
  function GetRequestData(requestData: Option<Value>, query: seq<Pair>, form: seq<Pair>, body: Option<Value>): (data: Value)
    ensures requestData.Some? && Truthy(requestData.value) ==> data == requestData.value
    ensures !(requestData.Some? && Truthy(requestData.value)) ==> data.Object?
    ensures !(requestData.Some? && Truthy(requestData.value)) && (query != [] || form != []) ==>
      data == Object(AsJson(DictOf(query + form)))
    ensures !(requestData.Some? && Truthy(requestData.value)) && query == [] && form == [] ==>
      && (body.None? ==> data == Object(map[]))
      && (body.Some? && body.value.Object? ==> data == body.value)
      && (body.Some? && !body.value.Object? ==> data == Object(map[DATA_KEY := body.value]))
  {
    if requestData.Some? && Truthy(requestData.value) then requestData.value
    else
      var merged := DictOf(query) + DictOf(form);
      MergeIsDictOfConcat(query, form);
      assert query + form != [] ==> (query + form)[0].0 in merged by {
        if query + form != [] {
          DictOfHasEveryKey(query + form, 0);
        }
      }
      if merged != map[] then Object(AsJson(merged))
      else
        var decoded := if body.Some? then body.value else Object(map[]);
        if decoded.Object? then decoded else Object(map[DATA_KEY := decoded])
  }

  /** With query or form parameters and nothing cached, the result holds
      exactly the query and form keys; on a shared key the last form value
      wins; a key only in the query keeps its last query value. */
  lemma RequestDataMerge(requestData: Option<Value>, query: seq<Pair>, form: seq<Pair>, body: Option<Value>, k: string)
    requires !(requestData.Some? && Truthy(requestData.value))
    requires query != [] || form != []
    ensures var data := GetRequestData(requestData, query, form, body);
      && data.Object?
      && (k in data.fields <==>
            (exists i | 0 <= i < |query| :: query[i].0 == k) || (exists i | 0 <= i < |form| :: form[i].0 == k))
      && (forall i | 0 <= i < |form| && IsLastKey(form, i) && form[i].0 == k ::
            k in data.fields && data.fields[k] == Str(form[i].1))
      && (forall i | 0 <= i < |query| && IsLastKey(query, i) && query[i].0 == k &&
                     (forall j | 0 <= j < |form| :: form[j].0 != k) ::
            k in data.fields && data.fields[k] == Str(query[i].1))
  {
    var merged := DictOf(query) + DictOf(form);
    MergeIsDictOfConcat(query, form);
    assert GetRequestData(requestData, query, form, body) == Object(AsJson(merged));
    if k in DictOf(query) {
      DictOfOnlyItsKeys(query, k);
    }
    if k in DictOf(form) {
      DictOfOnlyItsKeys(form, k);
    }
    forall i | 0 <= i < |query| && query[i].0 == k ensures k in merged {
      DictOfHasEveryKey(query, i);
    }
    forall i | 0 <= i < |form| && form[i].0 == k ensures k in merged {
      DictOfHasEveryKey(form, i);
    }
    forall i | 0 <= i < |form| && IsLastKey(form, i) && form[i].0 == k
      ensures k in merged && merged[k] == form[i].1
    {
      DictOfLastValue(form, i);
    }
    forall i | 0 <= i < |query| && IsLastKey(query, i) && query[i].0 == k && (forall j | 0 <= j < |form| :: form[j].0 != k)
      ensures k in merged && merged[k] == query[i].1
    {
      DictOfLastValue(query, i);
      if k in DictOf(form) {
        DictOfOnlyItsKeys(form, k);
      }
    }
  }

  lemma BodyListExample()
    ensures GetRequestData(None, [], [], Some(Array([Number(1), Number(2), Number(3)])))
            == Object(map["data" := Array([Number(1), Number(2), Number(3)])])
  {
  }

  lemma QueryOnlyExample()
    ensures GetRequestData(None, [("a", "1")], [], None) == Object(map["a" := Str("1")])
  {
    assert DictOf([("a", "1")] + []).Keys == {"a"};
  }

  // ---------------------------------------------------------------------
  // get_request_path and get_request_canonical_path

  /** A positional view argument: a string, a list or tuple of strings, or a
      dict whose values are strings (its entries in insertion order). Only
      entry lists whose keys are distinct stand for dicts; its length and
      values are then those of the dict. */
  datatype PathArg = StrArg(s: string) | SeqArg(items: seq<string>) | DictArg(entries: seq<Pair>)

  /** `len(arg)`. */
  function ArgLength(a: PathArg): nat {
    match a
    case StrArg(s) => |s|
    case SeqArg(xs) => |xs|
    case DictArg(es) => |es|
  }

  /** `dict.values()`, in insertion order. */
  function Values(es: seq<Pair>): (vs: seq<string>)
    ensures |vs| == |es| && forall k | 0 <= k < |es| :: vs[k] == es[k].1
  {
    seq(|es|, k requires 0 <= k < |es| => es[k].1)
  }

  /** What one argument adds to the values to mask: nothing when it is empty,
      a string itself, a list or tuple its elements, a dict its values. */
  function Contribution(a: PathArg): seq<string> {
    if ArgLength(a) == 0 then []
    else
      match a
      case StrArg(s) => [s]
      case SeqArg(xs) => xs
      case DictArg(es) => Values(es)
  }

  /** The values collected from all positional arguments, in order. */
  function FlattenArgs(args: seq<PathArg>): seq<string> {
    if args == [] then []
    else FlattenArgs(args[..|args| - 1]) + Contribution(args[|args| - 1])
  }

  lemma FlattenArgsSnoc(args: seq<PathArg>, a: PathArg)
    ensures FlattenArgs(args + [a]) == FlattenArgs(args) + Contribution(a)
  {
    assert (args + [a])[..|args|] == args;
  }

  /** Collecting values distributes over the argument list. */
  lemma {:induction false} FlattenArgsAppend(a: seq<PathArg>, b: seq<PathArg>)
    ensures FlattenArgs(a + b) == FlattenArgs(a) + FlattenArgs(b)
    decreases |b|
  {
    if b == [] {
      assert a + b == a;
    } else {
      var init, last := b[..|b| - 1], b[|b| - 1];
      assert b == init + [last];
      assert a + b == (a + init) + [last];
      calc {
        FlattenArgs(a + b);
        { FlattenArgsSnoc(a + init, last); }
        FlattenArgs(a + init) + Contribution(last);
        { FlattenArgsAppend(a, init); }
        (FlattenArgs(a) + FlattenArgs(init)) + Contribution(last);
        FlattenArgs(a) + (FlattenArgs(init) + Contribution(last));
        { FlattenArgsSnoc(init, last); }
        FlattenArgs(a) + FlattenArgs(b);
      }
    }
  }

  /** No value is collected exactly when every argument is empty. */
  lemma {:induction false} FlattenArgsEmpty(args: seq<PathArg>)
    ensures FlattenArgs(args) == [] <==> forall k | 0 <= k < |args| :: ArgLength(args[k]) == 0
    decreases |args|
  {
    if args != [] {
      var init := args[..|args| - 1];
      FlattenArgsEmpty(init);
      var last := args[|args| - 1];
      assert Contribution(last) == [] <==> ArgLength(last) == 0 by {
        if ArgLength(last) != 0 && last.DictArg? {
          assert |Values(last.entries)| == |last.entries|;
        }
      }
      assert forall k | 0 <= k < |init| :: init[k] == args[k];
    }
  }

  /** `"{" + name + "}"`, the placeholder for a masked path segment. */
  function Placeholder(name: string): string {
    "{" + name + "}"
  }

  const ID_NAME := "id"

  /** `path.replace('/' + value, '/{name}')`. */
  function Mask(path: string, name: string, value: string): string {
    ReplaceAll(path, "/" + value, "/" + Placeholder(name))
  }

  /** The masks applied one after another, each to the result of the one
      before; a mask is a (placeholder name, value) pair. */
  function MaskAll(path: string, masks: seq<Pair>): string {
    if masks == [] then path
    else
      var last := masks[|masks| - 1];
      Mask(MaskAll(path, masks[..|masks| - 1]), last.0, last.1)
  }

  /** Positional values are all masked as `{id}`. */
  function Positional(values: seq<string>): (masks: seq<Pair>)
    ensures |masks| == |values|
    ensures forall k | 0 <= k < |values| :: masks[k] == (ID_NAME, values[k])
  {
    if values == [] then []
    else Positional(values[..|values| - 1]) + [(ID_NAME, values[|values| - 1])]
  }

  lemma MaskAllSnoc(path: string, masks: seq<Pair>, m: Pair)
    ensures MaskAll(path, masks + [m]) == Mask(MaskAll(path, masks), m.0, m.1)
  {
    assert (masks + [m])[..|masks|] == masks;
  }

  lemma PositionalSnoc(values: seq<string>, v: string)
    ensures Positional(values + [v]) == Positional(values) + [(ID_NAME, v)]
  {
    assert (values + [v])[..|values|] == values;
  }

  /** Applying `a` then `b` is applying `a + b`. */
  lemma {:induction false} MaskAllAppend(path: string, a: seq<Pair>, b: seq<Pair>)
    ensures MaskAll(path, a + b) == MaskAll(MaskAll(path, a), b)
    decreases |b|
  {
    if b == [] {
      assert a + b == a;
    } else {
      var init := b[..|b| - 1];
      assert (a + b)[..|a + b| - 1] == a + init;
      MaskAllAppend(path, a, init);
    }
  }

  /** Values whose `'/' + value` does not occur in the path leave it unchanged. */
  lemma {:induction false} MaskAllNoMatch(path: string, masks: seq<Pair>)
    requires forall k | 0 <= k < |masks| :: !Occurs(path, "/" + masks[k].1)
    ensures MaskAll(path, masks) == path
    decreases |masks|
  {
    if masks != [] {
      var last := masks[|masks| - 1];
      MaskAllNoMatch(path, masks[..|masks| - 1]);
      ReplaceAllNoMatch(path, "/" + last.1, "/" + Placeholder(last.0));
    }
  }

  /** An empty value masks every `/` of the path. */
  lemma MaskEmptyValue(path: string, name: string)
    ensures Mask(path, name, "") == Join(Split(path, '/'), "/" + Placeholder(name))
  {
    assert "/" + "" == ['/'];
    ReplaceCharIsSplitJoin(path, '/', "/" + Placeholder(name));
  }

  /** A value whose `'/' + value` occurs once in the path, after a part in
      which it does not start, is masked in place: `/api/42/items` with `42`
      becomes `/api/{id}/items`, and `/api/42/` with `pk=42` becomes
      `/api/{pk}/`. */
  lemma MaskOneOccurrence(front: string, value: string, back: string, name: string)
    requires forall i | 0 <= i < |front| :: !OccursAt(front + ("/" + value + back), "/" + value, i)
    requires !Occurs(back, "/" + value)
    ensures Mask(front + "/" + value + back, name, value) == front + "/" + Placeholder(name) + back
  {
    var pat, rep := "/" + value, "/" + Placeholder(name);
    ReplaceAllNoMatch(back, pat, rep);
    ReplaceAllAtMatch(pat, back, rep);
    ReplaceAllKeepsPrefix(front, pat + back, pat, rep);
    assert front + "/" + value + back == front + (pat + back);
    assert front + "/" + Placeholder(name) + back == front + (rep + back);
  }

  /** `get_request_path` with the positional argument `"42"` turns
      `/api/42/items` into `/api/{id}/items`. */
  lemma PathExample()
    ensures MaskAll("/api/42/items", Positional(FlattenArgs([StrArg("42")]))) == "/api/{id}/items"
  {
    assert FlattenArgs([StrArg("42")]) == ["42"];
    assert Positional(["42"]) == [(ID_NAME, "42")];
    var path := "/api/42/items";
    assert path == "/api" + "/" + "42" + "/items" == "/api" + ("/" + "42" + "/items");
    assert "/" + "42" == "/42";
    // Where "/42" could start, the character after is never '4'.
    forall i | 0 <= i < |"/api"| ensures !OccursAt(path, "/42", i) {
      assert path[i..i + 3][1] == path[i + 1] != '4';
    }
    forall i | 0 <= i <= |"/items"| - 3 ensures !OccursAt("/items", "/42", i) {
      assert "/items"[i + 1] != '4';
    }
    MaskOneOccurrence("/api", "42", "/items", ID_NAME);
    assert "/api" + "/" + Placeholder(ID_NAME) + "/items" == "/api/{id}/items";
  }

  /** `get_request_canonical_path` with the named match value `pk=42` turns
      `/api/42/` into `/api/{pk}/`. */
  lemma CanonicalPathExample()
    ensures MaskAll(MaskAll("/api/42/", Positional([])), [("pk", "42")]) == "/api/{pk}/"
  {
    assert MaskAll("/api/42/", Positional([])) == "/api/42/";
    var path := "/api/42/";
    assert path == "/api" + "/" + "42" + "/" == "/api" + ("/" + "42" + "/");
    assert "/" + "42" == "/42";
    forall i | 0 <= i < |"/api"| ensures !OccursAt(path, "/42", i) {
      assert path[i..i + 3][1] == path[i + 1] != '4';
    }
    MaskOneOccurrence("/api", "42", "/", "pk");
    assert "/api" + "/" + Placeholder("pk") + "/" == "/api/{pk}/";
  }

  /** The loop of `get_request_path` that gathers the values to mask from
      the positional arguments. */
  method CollectValues(args: seq<PathArg>) returns (values: seq<string>)
    ensures values == FlattenArgs(args)
  {
    values := [];
    for i := 0 to |args|
      invariant values == FlattenArgs(args[..i])
    {
      assert args[..i + 1][..i] == args[..i];
      var arg := args[i];
      if ArgLength(arg) == 0 {
        continue;
      }
      match arg {
        case StrArg(s) => values := values + [s];
        case SeqArg(xs) => values := values + xs;
        case DictArg(es) => values := values + Values(es);
      }
    }
    assert args[..|args|] == args;
  }

  /** `get_request_path`: a cached truthy `request_path`, else the path with
      `'/' + v` replaced by `/{id}` for every collected value `v` in turn.
      Keyword arguments are accepted and ignored. */
  method GetRequestPath(requestPath: Option<string>, path: string, args: seq<PathArg>, kwargs: map<string, PathArg>)
    returns (r: string)
    ensures TruthyText(requestPath) ==> r == requestPath.value
    ensures !TruthyText(requestPath) ==> r == MaskAll(path, Positional(FlattenArgs(args)))
    ensures !TruthyText(requestPath) && (forall k | 0 <= k < |args| :: ArgLength(args[k]) == 0) ==> r == path
  {
    if TruthyText(requestPath) {
      return requestPath.value;
    }
    var values := CollectValues(args);
    FlattenArgsEmpty(args);
    if |values| == 0 {
      return path;
    }
    r := path;
    for i := 0 to |values|
      invariant r == MaskAll(path, Positional(values[..i]))
    {
      assert values[..i + 1] == values[..i] + [values[i]];
      PositionalSnoc(values[..i], values[i]);
      MaskAllSnoc(path, Positional(values[..i]), (ID_NAME, values[i]));
      r := Mask(r, ID_NAME, values[i]);
    }
    assert values[..|values|] == values;
  }

  /** The router's match: positional values and (name, value) pairs in the
      order of the route's keyword arguments. The names are distinct, as the
      keys of `ResolverMatch.kwargs` are. */
  datatype RouteMatch = RouteMatch(args: seq<string>, kwargs: seq<Pair>)

  /** `get_request_canonical_path`: a cached truthy `request_canonical_path`,
      else the path with every positional match value masked as `{id}`, then
      every named one as `{name}`. The view's own arguments are ignored. */
  method GetRequestCanonicalPath(requestCanonicalPath: Option<string>, path: string, resolverMatch: RouteMatch,
                                 args: seq<PathArg>, kwargs: map<string, PathArg>)
    returns (r: string)
    ensures TruthyText(requestCanonicalPath) ==> r == requestCanonicalPath.value
    ensures !TruthyText(requestCanonicalPath) ==>
      r == MaskAll(MaskAll(path, Positional(resolverMatch.args)), resolverMatch.kwargs)
    ensures !TruthyText(requestCanonicalPath) && resolverMatch.args == [] && resolverMatch.kwargs == [] ==> r == path
  {
    if TruthyText(requestCanonicalPath) {
      return requestCanonicalPath.value;
    }
    r := path;
    var positional := resolverMatch.args;
    for i := 0 to |positional|
      invariant r == MaskAll(path, Positional(positional[..i]))
    {
      assert positional[..i + 1] == positional[..i] + [positional[i]];
      PositionalSnoc(positional[..i], positional[i]);
      MaskAllSnoc(path, Positional(positional[..i]), (ID_NAME, positional[i]));
      r := Mask(r, ID_NAME, positional[i]);
    }
    assert positional[..|positional|] == positional;
    ghost var afterPositional := r;
    var named := resolverMatch.kwargs;
    for i := 0 to |named|
      invariant r == MaskAll(afterPositional, named[..i])
    {
      assert named[..i + 1] == named[..i] + [named[i]];
      MaskAllSnoc(afterPositional, named[..i], named[i]);
      var (key, value) := named[i];
      r := Mask(r, key, value);
    }
    assert named[..|named|] == named;
  }
}
