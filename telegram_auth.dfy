/**
 * Checking the init data that a Telegram Mini App hands to the backend, following the
 * Telegram Mini Apps documentation ("Validating data received via the Mini App"): drop
 * `hash`, sort the remaining `key=value` pairs by key, join them with line feeds, and
 * compare the hex HMAC-SHA-256 of that text, keyed by HMAC-SHA-256("WebAppData", bot
 * token), with the `hash` that came with the data.
 *
 * SHA-256 and HMAC-SHA-256 are parameters of the operations that use them; so are the
 * URL-query parser and the JSON parser.
 */
module TelegramAuth {
  import opened Wrappers
  import opened Utf8
  import Hex
  import JsInt

  /** One `key=value` entry of a URL query, in the order it appears. */
  type Param = (string, string)

  /** HMAC-SHA-256(key, message). */
  type HmacSha256 = (seq<Byte>, seq<Byte>) -> seq<Byte>

  type Sha256 = seq<Byte> -> seq<Byte>

  // ---- URLSearchParams ----

  /** `get(name)`: the value of the first entry called `name`. */
  function Get(ps: seq<Param>, name: string): (r: Option<string>)
    ensures r.Some? ==> (name, r.value) in ps
    ensures r.None? ==> forall p :: p in ps ==> p.0 != name
  {
    if ps == [] then None
    else if ps[0].0 == name then Some(ps[0].1)
    else Get(ps[1..], name)
  }

  /** `get` answers with the FIRST entry of that name: no earlier entry has it. */
  lemma {:induction false} GetFirst(ps: seq<Param>, name: string)
    requires Get(ps, name).Some?
    ensures exists i :: 0 <= i < |ps| && ps[i] == (name, Get(ps, name).value) && forall j :: 0 <= j < i ==> ps[j].0 != name
  {
    if ps[0].0 != name {
      var v := Get(ps, name).value;
      GetFirst(ps[1..], name);
      var i :| 0 <= i < |ps[1..]| && ps[1..][i] == (name, v) && forall j :: 0 <= j < i ==> ps[1..][j].0 != name;
      forall j | 1 <= j < i + 1 ensures ps[j].0 != name { assert ps[j] == ps[1..][j - 1]; }
      assert ps[i + 1] == (name, v);
    } else {
      assert ps[0] == (name, Get(ps, name).value);
    }
  }

  /** `delete(name)`: every entry called `name` goes, the others keep their order. */
  function Delete(ps: seq<Param>, name: string): (r: seq<Param>)
    ensures forall p :: p in r <==> p in ps && p.0 != name
    ensures |r| <= |ps|
    ensures Get(r, name).None? && forall k :: k != name ==> Get(r, k) == Get(ps, k)
  {
    if ps == [] then []
    else if ps[0].0 == name then Delete(ps[1..], name)
    else [ps[0]] + Delete(ps[1..], name)
  }

  /** `Object.fromEntries`: a later entry overwrites an earlier one with the same key. */
  function FromEntries(ps: seq<Param>): (m: map<string, string>)
    ensures forall k :: k in m <==> exists p :: p in ps && p.0 == k
  {
    if ps == [] then map[]
    else
      var m := FromEntries(ps[..|ps| - 1]);
      assert forall p :: p in ps <==> p in ps[..|ps| - 1] || p == ps[|ps| - 1];
      m[ps[|ps| - 1].0 := ps[|ps| - 1].1]
  }

  /** Each key of `Object.fromEntries` holds the value of its last entry. */
  lemma {:induction false} FromEntriesLastWins(ps: seq<Param>, i: int)
    requires 0 <= i < |ps| && forall j :: i < j < |ps| ==> ps[j].0 != ps[i].0
    ensures ps[i].0 in FromEntries(ps) && FromEntries(ps)[ps[i].0] == ps[i].1
  {
    var init := ps[..|ps| - 1];
    if i < |init| {
      assert init[i] == ps[i];
      forall j | i < j < |init| ensures init[j].0 != init[i].0 { assert init[j] == ps[j]; }
      FromEntriesLastWins(init, i);
    }
  }

  // ---- ordering keys ----

  /** Lexicographic order on code points. */
  predicate LexLe(a: string, b: string)
  {
    a == [] || (b != [] && (a[0] < b[0] || (a[0] == b[0] && LexLe(a[1..], b[1..]))))
  }

  lemma {:induction false} LexLeTotal(a: string, b: string)
    ensures LexLe(a, b) || LexLe(b, a)
  {
    if a != [] && b != [] && a[0] == b[0] {
      LexLeTotal(a[1..], b[1..]);
    }
  }

  lemma {:induction false} LexLeAntisymmetric(a: string, b: string)
    requires LexLe(a, b) && LexLe(b, a)
    ensures a == b
  {
    if a != [] && b != [] {
      LexLeAntisymmetric(a[1..], b[1..]);
      assert a == [a[0]] + a[1..] && b == [b[0]] + b[1..];
    }
  }

  lemma {:induction false} LexLeTransitive(a: string, b: string, c: string)
    requires LexLe(a, b) && LexLe(b, c)
    ensures LexLe(a, c)
  {
    if a != [] && b != [] && c != [] && a[0] == b[0] && b[0] == c[0] {
      LexLeTransitive(a[1..], b[1..], c[1..]);
    }
  }

  predicate SortedByKey(s: seq<Param>)
  {
    forall i, j :: 0 <= i < j < |s| ==> LexLe(s[i].0, s[j].0)
  }

  predicate DistinctKeys(s: seq<Param>)
  {
    forall i, j :: 0 <= i < j < |s| ==> s[i].0 != s[j].0
  }

  /** Places `p` before the first entry whose key is not smaller, keeping equal keys in order. */
  function Insert(p: Param, s: seq<Param>): (r: seq<Param>)
    ensures multiset(r) == multiset(s) + multiset{p}
  {
    if s == [] then [p]
    else if LexLe(p.0, s[0].0) then [p] + s
    else
      assert s == [s[0]] + s[1..];
      [s[0]] + Insert(p, s[1..])
  }

  /** A stable sort by key, as `Array#sort` with a key comparator. */
  function SortByKey(s: seq<Param>): (r: seq<Param>)
    ensures multiset(r) == multiset(s)
  {
    if s == [] then []
    else
      assert s == [s[0]] + s[1..];
      Insert(s[0], SortByKey(s[1..]))
  }

  lemma {:induction false} InsertSorted(p: Param, s: seq<Param>)
    requires SortedByKey(s)
    ensures SortedByKey(Insert(p, s))
  {
    if s == [] {
    } else if LexLe(p.0, s[0].0) {
      var r := [p] + s;
      forall i, j | 0 <= i < j < |r| ensures LexLe(r[i].0, r[j].0) {
        if i == 0 && j > 1 {
          LexLeTransitive(p.0, s[0].0, s[j - 1].0);
        }
      }
    } else {
      LexLeTotal(p.0, s[0].0);
      InsertSorted(p, s[1..]);
      var t := Insert(p, s[1..]);
      var r := [s[0]] + t;
      forall i, j | 0 <= i < j < |r| ensures LexLe(r[i].0, r[j].0) {
        if i == 0 {
          assert r[j] in multiset(t);
          assert r[j] in multiset(s[1..]) + multiset{p};
          if r[j] != p {
            assert r[j] in s[1..];
            var k :| 0 <= k < |s[1..]| && s[1..][k] == r[j];
            assert s[k + 1] == r[j];
          }
        }
      }
    }
  }

  lemma {:induction false} SortByKeySorted(s: seq<Param>)
    ensures SortedByKey(SortByKey(s))
  {
    if s != [] {
      SortByKeySorted(s[1..]);
      InsertSorted(s[0], SortByKey(s[1..]));
    }
  }

  lemma SortedHeadsEqual(a: seq<Param>, b: seq<Param>)
    requires SortedByKey(a) && SortedByKey(b) && DistinctKeys(a)
    requires multiset(a) == multiset(b) && a != []
    ensures b != [] && a[0] == b[0]
  {
    assert a[0] in multiset(b);
    var j :| 0 <= j < |b| && b[j] == a[0];
    assert b[0] in multiset(a);
    var i :| 0 <= i < |a| && a[i] == b[0];
    if i != 0 && j != 0 {
      assert LexLe(a[0].0, a[i].0) && LexLe(b[0].0, b[j].0);
      LexLeAntisymmetric(a[0].0, b[0].0);
      assert false;
    }
  }

  /** Two sorted arrangements of the same entries with distinct keys are the same list. */
  lemma {:induction false} SortedUnique(a: seq<Param>, b: seq<Param>)
    requires SortedByKey(a) && SortedByKey(b) && DistinctKeys(a)
    requires multiset(a) == multiset(b)
    ensures a == b
  {
    if a == [] {
      assert |b| == |multiset(b)| == 0;
    } else {
      SortedHeadsEqual(a, b);
      TailOf(a);
      TailOf(b);
      SortedUnique(a[1..], b[1..]);
      assert a == [a[0]] + a[1..] && b == [b[0]] + b[1..];
    }
  }

  lemma TailOf(a: seq<Param>)
    requires a != []
    ensures SortedByKey(a) ==> SortedByKey(a[1..])
    ensures DistinctKeys(a) ==> DistinctKeys(a[1..])
    ensures multiset(a[1..]) == multiset(a) - multiset{a[0]}
  {
    assert a == [a[0]] + a[1..];
  }

  // ---- the data-check string ----

  function Render(p: Param): string { p.0 + "=" + p.1 }

  function JoinLines(lines: seq<string>): string
  {
    if lines == [] then []
    else if |lines| == 1 then lines[0]
    else lines[0] + "\n" + JoinLines(lines[1..])
  }

  function RenderAll(s: seq<Param>): (r: seq<string>)
    ensures |r| == |s| && forall i :: 0 <= i < |s| ==> r[i] == Render(s[i])
  {
    if s == [] then [] else [Render(s[0])] + RenderAll(s[1..])
  }

  /** Entries sorted by key, each as `key=value`, joined with line feeds. */
  function DataCheckString(entries: seq<Param>): string
  {
    JoinLines(RenderAll(SortByKey(entries)))
  }

  lemma {:induction false} DeleteMultiset(ps: seq<Param>, name: string, p: Param)
    ensures multiset(Delete(ps, name))[p] == if p.0 == name then 0 else multiset(ps)[p]
  {
    if ps != [] {
      DeleteMultiset(ps[1..], name, p);
      assert multiset(ps) == multiset{ps[0]} + multiset(ps[1..]) by {
        assert ps == [ps[0]] + ps[1..];
      }
      if ps[0].0 != name {
        assert multiset(Delete(ps, name)) == multiset{ps[0]} + multiset(Delete(ps[1..], name));
      }
    }
  }

  lemma {:induction false} DeleteKeepsDistinct(ps: seq<Param>, name: string)
    requires DistinctKeys(ps)
    ensures DistinctKeys(Delete(ps, name))
  {
    if ps != [] {
      DeleteKeepsDistinct(ps[1..], name);
      if ps[0].0 != name {
        var r := Delete(ps, name);
        var t := Delete(ps[1..], name);
        forall i, j | 0 <= i < j < |r| ensures r[i].0 != r[j].0 {
          if i == 0 {
            assert r[j] in t;
            assert r[j] in ps[1..];
            var k :| 0 <= k < |ps[1..]| && ps[1..][k] == r[j];
            assert ps[k + 1] == r[j];
          }
        }
      }
    }
  }

  lemma {:induction false} InsertKeepsDistinct(p: Param, s: seq<Param>)
    requires DistinctKeys(s)
    requires forall q :: q in s ==> q.0 != p.0
    ensures DistinctKeys(Insert(p, s))
  {
    if s != [] && !LexLe(p.0, s[0].0) {
      InsertKeepsDistinct(p, s[1..]);
      var t := Insert(p, s[1..]);
      var r := [s[0]] + t;
      forall i, j | 0 <= i < j < |r| ensures r[i].0 != r[j].0 {
        if i == 0 {
          assert r[j] in multiset(s[1..]) + multiset{p};
          if r[j] != p {
            assert r[j] in s[1..];
            var k :| 0 <= k < |s[1..]| && s[1..][k] == r[j];
            assert s[k + 1] == r[j];
          }
        }
      }
    }
  }

  lemma {:induction false} SortKeepsDistinct(s: seq<Param>)
    requires DistinctKeys(s)
    ensures DistinctKeys(SortByKey(s))
  {
    if s != [] {
      SortKeepsDistinct(s[1..]);
      forall q | q in SortByKey(s[1..]) ensures q.0 != s[0].0 {
        assert q in multiset(SortByKey(s[1..]));
        var k :| 0 <= k < |s[1..]| && s[1..][k] == q;
        assert s[k + 1] == q;
      }
      InsertKeepsDistinct(s[0], SortByKey(s[1..]));
    }
  }

  /**
   * The data-check string does not depend on the order in which the entries arrived,
   * provided no key occurs twice (equal keys keep their arrival order).
   */
  lemma DataCheckStringOrderIndependent(ps: seq<Param>, qs: seq<Param>)
    requires multiset(ps) == multiset(qs)
    requires DistinctKeys(ps)
    ensures DataCheckString(Delete(ps, "hash")) == DataCheckString(Delete(qs, "hash"))
  {
    var a, b := Delete(ps, "hash"), Delete(qs, "hash");
    forall p ensures multiset(a)[p] == multiset(b)[p] {
      DeleteMultiset(ps, "hash", p);
      DeleteMultiset(qs, "hash", p);
    }
    assert multiset(a) == multiset(b);
    DeleteKeepsDistinct(ps, "hash");
    SortKeepsDistinct(a);
    SortByKeySorted(a);
    SortByKeySorted(b);
    SortedUnique(SortByKey(a), SortByKey(b));
  }

  // ---- validateTelegramWebAppData ----

  /** The parsed `user` field: `{}` on the failure paths, the parser's value otherwise. */
  datatype UserObject<J> = EmptyObject | ParsedUser(json: J)

  datatype ValidationResult<J> = ValidationResult(
    validatedData: Option<map<string, string>>,
    user: UserObject<J>,
    message: string)

  /** The hex HMAC of the data-check string, keyed by HMAC("WebAppData", bot token). */
  function ExpectedHash(hmac: HmacSha256, botToken: string, entries: seq<Param>): (h: string)
    ensures |h| == 2 * |hmac(hmac(Utf8.Encode("WebAppData"), Utf8.Encode(botToken)), Utf8.Encode(DataCheckString(entries)))|
  {
    var secretKey := hmac(Utf8.Encode("WebAppData"), Utf8.Encode(botToken));
    var digest := hmac(secretKey, Utf8.Encode(DataCheckString(entries)));
    Hex.EncodeShape(digest);
    Hex.Encode(digest)
  }

  /**
   * `validateTelegramWebAppData`, given the parsed query of the init data. A missing or
   * empty bot token or hash fails first; then the hash must match; then the `user` entry
   * (or "{}" when it is absent or empty) must parse as JSON.
   */
  function Validate<J>(botToken: Option<string>, query: seq<Param>, hmac: HmacSha256,
                       parseJson: string -> Option<J>): (r: ValidationResult<J>)
    ensures botToken.None? || botToken == Some("") ==>
              r == ValidationResult(None, EmptyObject, "BOT_TOKEN is not set")
    ensures botToken.Some? && botToken != Some("") && (Get(query, "hash").None? || Get(query, "hash") == Some("")) ==>
              r == ValidationResult(None, EmptyObject, "Hash is missing")
    ensures r.validatedData.Some? ==>
              botToken.Some? && Get(query, "hash").Some?
              && ExpectedHash(hmac, botToken.value, Delete(query, "hash")) == Get(query, "hash").value
    ensures r.validatedData.Some? ==> "hash" !in r.validatedData.value
    ensures r.validatedData.Some? ==> r.message == "Validation successful" && r.user.ParsedUser?
    ensures r.validatedData.Some? && "user" !in r.validatedData.value ==>
              parseJson("{}").Some? && r.user == ParsedUser(parseJson("{}").value)
  {
    if botToken.None? || botToken.value == "" then
      ValidationResult(None, EmptyObject, "BOT_TOKEN is not set")
    else
      var hash := Get(query, "hash");
      if hash.None? || hash.value == "" then
        ValidationResult(None, EmptyObject, "Hash is missing")
      else
        var entries := Delete(query, "hash");
        if ExpectedHash(hmac, botToken.value, entries) != hash.value then
          ValidationResult(None, EmptyObject, "Hash validation failed")
        else
          var validatedData := FromEntries(entries);
          match parseJson(UserText(validatedData))
          case None => ValidationResult(None, EmptyObject, "Error parsing user data")
          case Some(user) => ValidationResult(Some(validatedData), ParsedUser(user), "Validation successful")
  }

  /** `validatedData["user"] || "{}"`. */
  function UserText(data: map<string, string>): string
  {
    if "user" in data && data["user"] != "" then data["user"] else "{}"
  }

  /**
   * Validation succeeds exactly when the bot token and hash are non-empty, the hash matches,
   * and the `user` text parses; a matching hash with unparsable user text is reported as such.
   */
  lemma ValidatedIff<J>(botToken: Option<string>, query: seq<Param>, hmac: HmacSha256, parseJson: string -> Option<J>)
    ensures var hash := Get(query, "hash");
      var matches := botToken.Some? && botToken.value != "" && hash.Some? && hash.value != ""
                     && ExpectedHash(hmac, botToken.value, Delete(query, "hash")) == hash.value;
      var r := Validate(botToken, query, hmac, parseJson);
      && (r.validatedData.Some? <==> matches && parseJson(UserText(FromEntries(Delete(query, "hash")))).Some?)
      && (matches && parseJson(UserText(FromEntries(Delete(query, "hash")))).None? ==>
            r == ValidationResult(None, EmptyObject, "Error parsing user data"))
      && (r.validatedData.Some? ==> r.validatedData.value == FromEntries(Delete(query, "hash")))
  {
    var hash := Get(query, "hash");
    if botToken.Some? && botToken.value != "" && hash.Some? && hash.value != "" {
      var entries := Delete(query, "hash");
      var expected := ExpectedHash(hmac, botToken.value, entries);
      var r := Validate(botToken, query, hmac, parseJson);
      if expected == hash.value {
        var data := FromEntries(entries);
        assert r == match parseJson(UserText(data))
                    case None => ValidationResult(None, EmptyObject, "Error parsing user data")
                    case Some(user) => ValidationResult(Some(data), ParsedUser(user), "Validation successful");
      } else {
        assert r == ValidationResult(None, EmptyObject, "Hash validation failed");
      }
    }
  }

  // ---- authorizeUser ----

  /** What `JSON.parse(req.query.initData)` gives: a throw, or an object's `initData` field. */
  datatype InitDataQuery = NotJson | Json(initData: Option<string>)

  /** The user attached to the request: top-level entries of the init data, absent or text. */
  datatype RequestUser = RequestUser(
    id: Option<string>,
    firstName: Option<string>,
    lastName: Option<string>,
    username: Option<string>,
    photoUrl: Option<string>)

  datatype AuthOutcome =
    | Reject(status: int, error: string)
    | Accept(user: RequestUser)

  const DAY_MS: int := 86_400_000

  function Lookup(m: map<string, string>, key: string): Option<string>
  {
    if key in m then Some(m[key]) else None
  }

  /**
   * A JavaScript object built by `Object.fromEntries`: keys in order of first
   * appearance, each holding the value of its last entry.
   */
  function ObjectOf(ps: seq<Param>): (obj: seq<Param>)
    ensures DistinctKeys(obj)
    ensures forall k :: Get(obj, k) == Lookup(FromEntries(ps), k)
  {
    if ps == [] then []
    else
      var init := ObjectOf(ps[..|ps| - 1]);
      var last := ps[|ps| - 1];
      Assign(init, last.0, last.1)
  }

  /** A key of the object is present iff some entry has it, and it reads the value of its last entry. */
  lemma ObjectOfEntries(ps: seq<Param>, k: string, i: int)
    requires 0 <= i < |ps| && ps[i].0 == k && forall j :: i < j < |ps| ==> ps[j].0 != k
    ensures Get(ObjectOf(ps), k) == Some(ps[i].1)
  {
    FromEntriesLastWins(ps, i);
  }

  /** A key no entry carries is absent from the object. */
  lemma ObjectOfAbsent(ps: seq<Param>, k: string)
    requires forall p :: p in ps ==> p.0 != k
    ensures Get(ObjectOf(ps), k).None?
  {
  }

  /** `obj[key] = value`: replaces the value in place, or appends a new key. */
  function Assign(obj: seq<Param>, key: string, value: string): (r: seq<Param>)
    requires DistinctKeys(obj)
    ensures DistinctKeys(r)
    ensures Get(r, key) == Some(value)
    ensures forall k :: k != key ==> Get(r, k) == Get(obj, k)
    ensures forall q :: q in r ==> q in obj || q == (key, value)
  {
    if obj == [] then [(key, value)]
    else if obj[0].0 == key then [(key, value)] + obj[1..]
    else
      var t := Assign(obj[1..], key, value);
      assert forall q :: q in obj[1..] ==> q.0 != obj[0].0;
      [obj[0]] + t
  }

  /**
   * The string authorizeUser signs: the object's keys in sorted order, each as
   * `key=value`, except that `user` is rendered from the `user` property of the init-data
   * TEXT, which does not exist, so it always reads `user=undefined`.
   */
  function AuthorizeCheckString(obj: seq<Param>): string
  {
    JoinLines(RenderAll(UserUndefined(SortByKey(obj))))
  }

  function UserUndefined(s: seq<Param>): (r: seq<Param>)
    ensures |r| == |s|
  {
    if s == [] then []
    else [if s[0].0 == "user" then ("user", "undefined") else s[0]] + UserUndefined(s[1..])
  }

  /**
   * The entries authorizeUser signs: every entry not called `user`, and `user=undefined` in
   * place of any `user` entry, whatever its value was.
   */
  lemma {:induction false} UserUndefinedEntries(s: seq<Param>, p: Param)
    ensures p in UserUndefined(s) <==> (p in s && p.0 != "user") || (p == ("user", "undefined") && exists q :: q in s && q.0 == "user")
  {
    if s != [] {
      UserUndefinedEntries(s[1..], p);
      assert s == [s[0]] + s[1..];
      if s[0].0 == "user" {
        assert s[0] in s;
      }
      if p == ("user", "undefined") && (exists q :: q in s[1..] && q.0 == "user") {
        var q :| q in s[1..] && q.0 == "user";
        assert q in s;
      }
    }
  }

  /** `parseInt(auth_date, 10)`; a missing entry is parsed as the text "undefined", i.e. NaN. */
  function AuthDate(obj: seq<Param>): (r: Option<int>)
    ensures Get(obj, "auth_date").None? ==> r.None?
    ensures r.Some? ==> exists i :: 0 <= i < |Get(obj, "auth_date").value| && JsInt.IsDigit(Get(obj, "auth_date").value[i])
  {
    JsInt.ParseIntNoDigits("undefined");
    JsInt.ParseInt(Get(obj, "auth_date").GetOr("undefined"))
  }

  /**
   * `Date.now() / 1000 - authDate > 86400`, in milliseconds. NaN (no auth date) compares
   * false, so it is not expired.
   */
  predicate Expired(authDate: Option<int>, nowMs: int)
    ensures authDate.None? ==> !Expired(authDate, nowMs)
    ensures authDate.Some? && nowMs <= 1000 * authDate.value + DAY_MS ==> !Expired(authDate, nowMs)
  {
    authDate.Some? && nowMs - 1000 * authDate.value > DAY_MS
  }

  function UserOf(obj: seq<Param>): RequestUser
  {
    RequestUser(Get(obj, "id"), Get(obj, "first_name"), Get(obj, "last_name"),
                Get(obj, "username"), Get(obj, "photo_url"))
  }

  /**
   * The decision authorizeUser reaches: a throw while reading the query or hashing with
   * an unset bot token gives 500, missing init data 400, an old auth date 401, and
   * anything else is accepted. The signature comparison decides nothing.
   */
  function Authorize(query: InitDataQuery, botToken: Option<string>, nowMs: int,
                     parseQuery: string -> seq<Param>): (r: AuthOutcome)
    ensures r.Accept? ==> query.Json? && query.initData.Some? && query.initData.value != "" && botToken.Some?
    ensures r.Reject? ==> r in {Reject(500, "Internal server error"), Reject(400, "Missing initData parameter"),
                                Reject(401, "Init data expired")}
    ensures r == Reject(500, "Internal server error") <==>
              query.NotJson? || (query.initData.Some? && query.initData.value != "" && botToken.None?)
    ensures query.Json? && query.initData.Some? && query.initData.value != "" && botToken.Some? ==>
              var obj := Delete(ObjectOf(parseQuery(query.initData.value)), "hash");
              (r.Accept? <==> !Expired(AuthDate(obj), nowMs))
    ensures r.Accept? ==>
              var obj := Delete(ObjectOf(parseQuery(query.initData.value)), "hash");
              r.user == RequestUser(Get(obj, "id"), Get(obj, "first_name"), Get(obj, "last_name"),
                                    Get(obj, "username"), Get(obj, "photo_url"))
  {
    match query
    case NotJson => Reject(500, "Internal server error")
    case Json(initData) =>
      if initData.None? || initData.value == "" then Reject(400, "Missing initData parameter")
      else if botToken.None? then Reject(500, "Internal server error")
      else
        var obj := Delete(ObjectOf(parseQuery(initData.value)), "hash");
        if Expired(AuthDate(obj), nowMs) then Reject(401, "Init data expired")
        else Accept(UserOf(obj))
  }

  /** Missing init data is answered with 400 and the request goes no further. */
  lemma MissingInitDataRejected(botToken: Option<string>, nowMs: int, parseQuery: string -> seq<Param>)
    ensures Authorize(Json(None), botToken, nowMs, parseQuery) == Reject(400, "Missing initData parameter")
    ensures Authorize(Json(Some("")), botToken, nowMs, parseQuery) == Reject(400, "Missing initData parameter")
  {
  }

  /** A day-old auth date is still accepted; one second more is not. */
  lemma ExpiryBoundary(text: string, botToken: string, authDate: nat, parseQuery: string -> seq<Param>)
    requires text != ""
    requires AuthDate(Delete(ObjectOf(parseQuery(text)), "hash")) == Some(authDate)
    ensures Authorize(Json(Some(text)), Some(botToken), 1000 * (authDate + 86400), parseQuery).Accept?
    ensures Authorize(Json(Some(text)), Some(botToken), 1000 * (authDate + 86401), parseQuery)
              == Reject(401, "Init data expired")
  {
  }

  /** Init data without `auth_date` never expires. */
  lemma MissingAuthDateAccepted(text: string, botToken: string, nowMs: int, parseQuery: string -> seq<Param>)
    requires text != ""
    requires forall p :: p in parseQuery(text) ==> p.0 != "auth_date"
    ensures Authorize(Json(Some(text)), Some(botToken), nowMs, parseQuery).Accept?
  {
    var obj := Delete(ObjectOf(parseQuery(text)), "hash");
    assert "auth_date" !in FromEntries(parseQuery(text));
    assert Get(obj, "auth_date").None?;
    assert JsInt.ParseInt("undefined") == None by {
      JsInt.ParseIntNoDigits("undefined");
    }
  }

  /**
   * The 401 "Init data expired" answer comes exactly when the auth date parses and is more
   * than 86400 seconds old.
   */
  lemma ExpiredIff(text: string, botToken: string, nowMs: int, parseQuery: string -> seq<Param>)
    requires text != ""
    ensures var obj := Delete(ObjectOf(parseQuery(text)), "hash");
            Authorize(Json(Some(text)), Some(botToken), nowMs, parseQuery) == Reject(401, "Init data expired")
            <==> AuthDate(obj).Some? && nowMs - 1000 * AuthDate(obj).value > DAY_MS
  {
  }

  /** One HTTP exchange seen by the middleware: what it sends, and whether it passes on. */
  class Exchange {
    var user: Option<RequestUser>
    var status: Option<int>
    var error: Option<string>
    var nextCalls: nat

    constructor ()
      ensures user.None? && status.None? && error.None? && nextCalls == 0
    {
      user, status, error, nextCalls := None, None, None, 0;
    }

    /**
     * `authorizeUser`: parses the init data into an object, deletes `hash` from it,
     * computes the signature (logged, never enforced), checks the auth date, then either
     * answers with an error status or attaches the user and calls `next` once.
     */
    method AuthorizeUser(query: InitDataQuery, botToken: Option<string>, nowMs: int,
                         parseQuery: string -> seq<Param>, sha256: Sha256, hmac: HmacSha256)
      returns (signatureMatches: bool)
      modifies this
      ensures var outcome := Authorize(query, botToken, nowMs, parseQuery);
              match outcome
              case Reject(code, message) =>
                status == Some(code) && error == Some(message)
                && user == old(user) && nextCalls == old(nextCalls)
              case Accept(u) =>
                user == Some(u) && nextCalls == old(nextCalls) + 1
                && status == old(status) && error == old(error)
    {
      signatureMatches := false;
      if query.NotJson? {
        status, error := Some(500), Some("Internal server error");
        return;
      }
      var telegramInitData := query.initData;
      if telegramInitData.None? || telegramInitData.value == "" {
        status, error := Some(400), Some("Missing initData parameter");
        return;
      }
      var initDataObject := ObjectOf(parseQuery(telegramInitData.value));
      var providedHash := Get(initDataObject, "hash");
      initDataObject := Delete(initDataObject, "hash");
      var dataCheckString := AuthorizeCheckString(initDataObject);
      if botToken.None? {
        status, error := Some(500), Some("Internal server error");
        return;
      }
      var secretKey := sha256(Utf8.Encode(botToken.value));
      var computedHash := Hex.Encode(hmac(secretKey, Utf8.Encode(dataCheckString)));
      signatureMatches := providedHash == Some(computedHash);
      var authDate := AuthDate(initDataObject);
      if Expired(authDate, nowMs) {
        status, error := Some(401), Some("Init data expired");
        return;
      }
      user := Some(UserOf(initDataObject));
      nextCalls := nextCalls + 1;
    }
  }
}
