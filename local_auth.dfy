/**
 * The wallet's local password and session check, kept in the browser's key-value storage.
 * Per user id there are two keys: `user_<id>_ctrl_wallet` holds the hex SHA-256 of the
 * password, and `user_<id>_auth_timestamp` the time of the last successful login in
 * milliseconds, as decimal text. A session is valid for four hours after that time.
 */
module LocalAuth {
  import opened Wrappers
  import opened Utf8
  import Hex
  import JsInt

  type Digest = s: seq<Byte> | |s| == 32 witness seq(32, _ => 0)

  /** `crypto.subtle.digest("SHA-256", ·)`; `None` when the promise rejects. */
  type Sha256 = seq<Byte> -> Option<Digest>

  const FOUR_HOURS_MS: int := 4 * 60 * 60 * 1000

  /** `hashFunction`: the lower-case hex text of the SHA-256 of the UTF-8 bytes. */
  function HashFunction(sha256: Sha256, text: string): (r: Option<string>)
    ensures r.Some? ==> |r.value| == 64
    ensures r.Some? ==> forall i :: 0 <= i < 64 ==> Hex.IsHexDigit(r.value[i])
    ensures r.Some? <==> sha256(Utf8.Encode(text)).Some?
  {
    match sha256(Utf8.Encode(text))
    case None => None
    case Some(digest) =>
      Hex.EncodeShape(digest);
      Some(Hex.Encode(digest))
  }

  function PasswordKey(userId: string): string { "user_" + userId + "_ctrl_wallet" }

  function TimestampKey(userId: string): string { "user_" + userId + "_auth_timestamp" }

  /** A password key and a timestamp key never coincide, whatever the two user ids. */
  lemma KeysNeverCollide(u: string, v: string)
    ensures PasswordKey(u) != TimestampKey(v)
  {
    var p, t := PasswordKey(u), TimestampKey(v);
    assert p[|p| - 1] == 't';
    assert t[|t| - 1] == 'p';
  }

  // ---- the stored state, as a plain map ----

  /** `!!getItem(passwordKey)`: a non-empty hash is stored. */
  predicate PasswordExists(items: map<string, string>, userId: string)
  {
    PasswordKey(userId) in items && items[PasswordKey(userId)] != ""
  }

  /** The stored hash is present and equal to `inputHash`. */
  predicate StoredHashIs(items: map<string, string>, userId: string, inputHash: string)
  {
    PasswordExists(items, userId) && items[PasswordKey(userId)] == inputHash
  }

  /** `setAuthenticationTimestamp`: `Date.now().toString()` under the timestamp key. */
  function Stamp(items: map<string, string>, userId: string, nowMs: nat): map<string, string>
  {
    items[TimestampKey(userId) := JsInt.DecimalString(nowMs)]
  }

  /**
   * `checkAuthenticationValidity`: a non-empty timestamp whose `parseInt` is less than four
   * hours before now. Text that does not parse (NaN) is never valid.
   */
  predicate AuthValid(items: map<string, string>, userId: string, nowMs: int)
    ensures AuthValid(items, userId, nowMs) ==>
      TimestampKey(userId) in items && exists i :: 0 <= i < |items[TimestampKey(userId)]| && JsInt.IsDigit(items[TimestampKey(userId)][i])
  {
    var key := TimestampKey(userId);
    key in items && items[key] != ""
    && var t := JsInt.ParseInt(items[key]);
       t.Some? && nowMs - t.value < FOUR_HOURS_MS
  }

  /** After a stamp at time `t`, the session is valid exactly while less than four hours pass. */
  lemma StampThenValid(items: map<string, string>, userId: string, t: nat, nowMs: int)
    ensures AuthValid(Stamp(items, userId, t), userId, nowMs) <==> nowMs - t < FOUR_HOURS_MS
  {
    JsInt.ParseDecimal(t, "");
    assert JsInt.DecimalString(t) + "" == JsInt.DecimalString(t);
  }

  /** Without a timestamp there is no valid session. */
  lemma NoTimestampNoSession(items: map<string, string>, userId: string, nowMs: int)
    requires TimestampKey(userId) !in items
    ensures !AuthValid(items, userId, nowMs)
  {
  }

  /** Stamping or clearing the timestamp of any user never touches any stored password. */
  lemma TimestampKeepsPasswords(items: map<string, string>, u: string, v: string, t: nat, h: string)
    ensures StoredHashIs(Stamp(items, u, t), v, h) == StoredHashIs(items, v, h)
    ensures StoredHashIs(items - {TimestampKey(u)}, v, h) == StoredHashIs(items, v, h)
    ensures PasswordExists(items - {TimestampKey(u)}, v) == PasswordExists(items, v)
  {
    KeysNeverCollide(v, u);
  }

  /** Once `createPassword` has stored a hash, the password exists and that hash matches. */
  lemma CreatedPasswordMatches(items: map<string, string>, userId: string, hash: string, t: nat)
    requires |hash| == 64
    ensures PasswordExists(Stamp(items[PasswordKey(userId) := hash], userId, t), userId)
    ensures StoredHashIs(Stamp(items[PasswordKey(userId) := hash], userId, t), userId, hash)
  {
    KeysNeverCollide(userId, userId);
  }

  /** `window.localStorage`; when `available` is false every access throws. */
  class Storage {
    var items: map<string, string>
    var available: bool

    constructor (available: bool)
      ensures items == map[] && this.available == available
    {
      items := map[];
      this.available := available;
    }

    /** `login`: true and a fresh timestamp iff the hash of `password` is the stored one. */
    method Login(userId: string, password: string, sha256: Sha256, nowMs: nat) returns (ok: bool)
      modifies this
      ensures available == old(available)
      ensures ok <==> old(available) && HashFunction(sha256, password).Some?
                      && StoredHashIs(old(items), userId, HashFunction(sha256, password).value)
      ensures ok ==> items == Stamp(old(items), userId, nowMs)
      ensures !ok ==> items == old(items)
    {
      if !available {
        return false;
      }
      var storedHash := if PasswordKey(userId) in items then Some(items[PasswordKey(userId)]) else None;
      if storedHash.None? || storedHash.value == "" {
        return false;
      }
      var inputHash := HashFunction(sha256, password);
      if inputHash.None? {
        return false;
      }
      if storedHash.value == inputHash.value {
        var threw := SetAuthenticationTimestamp(userId, nowMs);
        return true;
      }
      return false;
    }

    /** `createPassword`: stores the hash of `password` and stamps the session. */
    method CreatePassword(userId: string, password: string, sha256: Sha256, nowMs: nat) returns (ok: bool)
      modifies this
      ensures available == old(available)
      ensures ok <==> old(available) && HashFunction(sha256, password).Some?
      ensures ok ==> items == Stamp(old(items)[PasswordKey(userId) := HashFunction(sha256, password).value], userId, nowMs)
      ensures !ok ==> items == old(items)
    {
      var hash := HashFunction(sha256, password);
      if hash.None? || !available {
        return false;
      }
      items := items[PasswordKey(userId) := hash.value];
      var threw := SetAuthenticationTimestamp(userId, nowMs);
      return true;
    }

    /** `checkPasswordExists`: false also when the storage throws. */
    method CheckPasswordExists(userId: string) returns (exists_: bool)
      ensures exists_ <==> available && PasswordExists(items, userId)
    {
      if !available {
        return false;
      }
      exists_ := PasswordKey(userId) in items && items[PasswordKey(userId)] != "";
    }

    /** `setAuthenticationTimestamp`; `threw` when the storage is unavailable. */
    method SetAuthenticationTimestamp(userId: string, nowMs: nat) returns (threw: bool)
      modifies this
      ensures available == old(available) && threw == !available
      ensures items == if threw then old(items) else Stamp(old(items), userId, nowMs)
    {
      if !available {
        return true;
      }
      items := items[TimestampKey(userId) := JsInt.DecimalString(nowMs)];
      return false;
    }

    /** `checkAuthenticationValidity`; `None` stands for the exception of an unavailable storage. */
    function CheckAuthenticationValidity(userId: string, nowMs: int): (r: Option<bool>)
      reads this
      ensures r.None? <==> !available
      ensures r == Some(true) ==> TimestampKey(userId) in items
    {
      if !available then None else Some(AuthValid(items, userId, nowMs))
    }

    /** `clearAuthenticationTimestamp`: removes the timestamp key and nothing else. */
    method ClearAuthenticationTimestamp(userId: string) returns (threw: bool)
      modifies this
      ensures available == old(available) && threw == !available
      ensures items == if threw then old(items) else old(items) - {TimestampKey(userId)}
    {
      if !available {
        return true;
      }
      items := items - {TimestampKey(userId)};
      return false;
    }
  }

  /** A password just created logs in, and the session it opens is valid at once. */
  method CreateThenLogin(store: Storage, userId: string, password: string, sha256: Sha256, t: nat)
    returns (created: bool, loggedIn: bool)
    modifies store
    ensures created == loggedIn
    ensures loggedIn <==> old(store.available) && sha256(Utf8.Encode(password)).Some?
    ensures loggedIn ==> store.CheckAuthenticationValidity(userId, t) == Some(true)
  {
    created := store.CreatePassword(userId, password, sha256, t);
    if created {
      CreatedPasswordMatches(old(store.items), userId, HashFunction(sha256, password).value, t);
    }
    loggedIn := store.Login(userId, password, sha256, t);
    if loggedIn {
      StampThenValid(store.items, userId, t, t);
      assert store.items == Stamp(old(store.items)[PasswordKey(userId) := HashFunction(sha256, password).value], userId, t)[TimestampKey(userId) := JsInt.DecimalString(t)];
    }
  }
}
