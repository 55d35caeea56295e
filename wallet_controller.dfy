/**
 * The wallet routes: registering a user's Solana address and removing it. `failAt` numbers
 * the database calls from 0; the call with that number throws, and a larger number means none
 * does.
 */
module WalletController {
  import opened Wrappers
  import JsInt
  import opened Registry

  /** The request body `{ id, name, solanaAddress }`. */
  datatype WalletRequest = WalletRequest(id: int, name: string, solanaAddress: Option<string>)

  /** `if (solanaAddress)`: present and not the empty text. */
  predicate Truthy(address: Option<string>)
  {
    address.Some? && address.value != ""
  }

  const UPDATED: string := "Solana wallet updated successfully."
  const ADDED: string := "Wallet added successfully."
  const ADD_FAILED: string := "Error adding wallet."
  const DELETED: string := "Solana wallet deleted successfully."
  const DELETE_FAILED: string := "Error deleting Solana wallet."

  /**
   * `addWallet`: an existing user gets the new address when one is given, and nothing
   * (not even a response) otherwise; an unknown id gets a new row.
   */
  function AddWalletOutcome(t: Tables, req: WalletRequest, failAt: nat): (r: (Tables, Reply))
    ensures r.1 in {Send(500, Text(ADD_FAILED)), Send(200, Text(UPDATED)), Send(201, Text(ADDED)), NoReply}
    ensures r.1 == Send(500, Text(ADD_FAILED)) || r.1 == NoReply ==> r.0 == t
    ensures r.1 == Send(500, Text(ADD_FAILED)) <==> failAt == 0 || (failAt == 1 && (req.id !in t.users || Truthy(req.solanaAddress)))
    ensures r.1.Send? && r.1.status != 500 ==> req.id in r.0.users && r.0.users[req.id].solanaAddress.Some? == Truthy(req.solanaAddress)
  {
    if failAt == 0 then (t, Send(500, Text(ADD_FAILED)))
    else if req.id in t.users then
      if !Truthy(req.solanaAddress) then (t, NoReply)
      else if failAt == 1 then (t, Send(500, Text(ADD_FAILED)))
      else (t.(users := t.users[req.id := t.users[req.id].(solanaAddress := req.solanaAddress)]),
            Send(200, Text(UPDATED)))
    else if failAt == 1 then (t, Send(500, Text(ADD_FAILED)))
    else (t.(users := t.users[req.id := User(req.name, if Truthy(req.solanaAddress) then req.solanaAddress else None)]),
          Send(201, Text(ADDED)))
  }

  /**
   * `addWallet` changes at most the row of `req.id`; an existing row keeps its name, and
   * contacts and associations are untouched.
   */
  lemma AddWalletFrame(t: Tables, req: WalletRequest, failAt: nat)
    ensures var r := AddWalletOutcome(t, req, failAt).0;
      && r.contacts == t.contacts && r.links == t.links
      && t.users.Keys <= r.users.Keys <= t.users.Keys + {req.id}
      && (forall k :: k in t.users && k != req.id ==> r.users[k] == t.users[k])
      && (req.id in t.users ==> r.users[req.id].name == t.users[req.id].name)
  {
  }

  /** Without a failure the reply is 200 or 201 as the user existed or not, or none at all. */
  lemma AddWalletReplies(t: Tables, req: WalletRequest, failAt: nat)
    requires failAt >= 2
    ensures var (r, reply) := AddWalletOutcome(t, req, failAt);
      && (reply == Send(201, Text(ADDED)) <==> req.id !in t.users)
      && (reply == Send(200, Text(UPDATED)) <==> req.id in t.users && Truthy(req.solanaAddress))
      && (reply == NoReply <==> req.id in t.users && !Truthy(req.solanaAddress))
      && (reply != NoReply ==> req.id in r.users && r.users[req.id].solanaAddress == (if Truthy(req.solanaAddress) then req.solanaAddress else None))
  {
  }

  /** `deleteSolanaWallet`: the address of `parseInt(id)` becomes null; NaN or an unknown id is an error. */
  function DeleteWalletOutcome(t: Tables, idParam: string, failAt: nat): (r: (Tables, Reply))
    ensures r.1 == Send(200, Text(DELETED)) || r.1 == Send(500, Text(DELETE_FAILED))
    ensures r.1 == Send(200, Text(DELETED)) <==> failAt >= 1 && JsInt.ParseInt(idParam).Some? && JsInt.ParseInt(idParam).value in t.users
    ensures r.1 == Send(500, Text(DELETE_FAILED)) ==> r.0 == t
    ensures r.0.users.Keys == t.users.Keys && r.0.contacts == t.contacts && r.0.links == t.links
    ensures r.1 == Send(200, Text(DELETED)) ==> r.0.users[JsInt.ParseInt(idParam).value].solanaAddress.None?
    ensures forall k :: k in t.users ==> r.0.users[k].name == t.users[k].name
    ensures forall k :: k in t.users && (r.1 != Send(200, Text(DELETED)) || JsInt.ParseInt(idParam) != Some(k)) ==>
              r.0.users[k] == t.users[k]
  {
    match JsInt.ParseInt(idParam)
    case None => (t, Send(500, Text(DELETE_FAILED)))
    case Some(id) =>
      if failAt == 0 || id !in t.users then (t, Send(500, Text(DELETE_FAILED)))
      else (t.(users := t.users[id := t.users[id].(solanaAddress := None)]), Send(200, Text(DELETED)))
  }

  /**
   * After registering an address for a user, deleting it through the route id clears exactly
   * that address and keeps the name.
   */
  lemma AddThenDelete(t: Tables, id: nat, name: string, address: string, failAt: nat)
    requires address != "" && failAt >= 2
    ensures var (added, _) := AddWalletOutcome(t, WalletRequest(id, name, Some(address)), failAt);
      var (deleted, reply) := DeleteWalletOutcome(added, JsInt.DecimalString(id), failAt);
      && added.users[id].solanaAddress == Some(address)
      && reply == Send(200, Text(DELETED))
      && deleted.users[id] == added.users[id].(solanaAddress := None)
      && deleted.users[id].name == (if id in t.users then t.users[id].name else name)
  {
    var added := AddWalletOutcome(t, WalletRequest(id, name, Some(address)), failAt).0;
    assert id in added.users && added.users[id].solanaAddress == Some(address);
    assert added.users[id].name == (if id in t.users then t.users[id].name else name);
    JsInt.ParseDecimal(id, "");
    assert JsInt.DecimalString(id) + "" == JsInt.DecimalString(id);
  }

  /** Both handlers keep the tables valid: they never remove a user row. */
  lemma WalletHandlersKeepValid(t: Tables, req: WalletRequest, idParam: string, failAt: nat)
    requires Valid(t)
    ensures Valid(AddWalletOutcome(t, req, failAt).0)
    ensures Valid(DeleteWalletOutcome(t, idParam, failAt).0)
  {
  }

  method AddWallet(db: Database, req: WalletRequest, failAt: nat) returns (reply: Reply)
    modifies db
    ensures db.Snapshot() == AddWalletOutcome(old(db.Snapshot()), req, failAt).0
    ensures reply == AddWalletOutcome(old(db.Snapshot()), req, failAt).1
  {
    if failAt == 0 {
      return Send(500, Text(ADD_FAILED));
    }
    var existingUser := if req.id in db.users then Some(db.users[req.id]) else None;
    if existingUser.Some? {
      if Truthy(req.solanaAddress) {
        if failAt == 1 {
          return Send(500, Text(ADD_FAILED));
        }
        db.SetUser(req.id, existingUser.value.(solanaAddress := req.solanaAddress));
        reply := Send(200, Text(UPDATED));
      } else {
        reply := NoReply;
      }
    } else {
      if failAt == 1 {
        return Send(500, Text(ADD_FAILED));
      }
      db.SetUser(req.id, User(req.name, if Truthy(req.solanaAddress) then req.solanaAddress else None));
      reply := Send(201, Text(ADDED));
    }
  }

  method DeleteSolanaWallet(db: Database, idParam: string, failAt: nat) returns (reply: Reply)
    modifies db
    ensures db.Snapshot() == DeleteWalletOutcome(old(db.Snapshot()), idParam, failAt).0
    ensures reply == DeleteWalletOutcome(old(db.Snapshot()), idParam, failAt).1
  {
    var id := JsInt.ParseInt(idParam);
    if id.None? || failAt == 0 || id.value !in db.users {
      return Send(500, Text(DELETE_FAILED));
    }
    db.SetUser(id.value, db.users[id.value].(solanaAddress := None));
    reply := Send(200, Text(DELETED));
  }
}
