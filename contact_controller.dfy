/**
 * The contact routes: listing the contacts a user saved, and removing one association.
 * Route parameters arrive as text (or are absent) and are converted with `BigInt`, which
 * throws on anything but an integer. `failAt` numbers the database calls from 0; the call with
 * that number throws, and a larger number means none does.
 */
module ContactController {
  import opened Wrappers
  import JsInt
  import opened Registry

  const GET_FAILED: string := "Error retrieving contacts."
  const DELETED: string := "Contact association deleted successfully."
  const DELETE_FAILED: string := "Error deleting contact association."

  /** `BigInt(param)`; `None` when it throws, which an absent parameter always does. */
  function BigIntParam(param: Option<string>): (r: Option<int>)
    ensures param.None? ==> r.None?
    ensures param.Some? && JsInt.Trim(param.value) == [] ==> r == Some(0)
  {
    if param.None? then None else JsInt.ParseBigInt(param.value)
  }

  /** The contact ids associated with `userId`, in store order. */
  function LinkedIds(links: seq<UserContact>, userId: int): seq<int>
  {
    if links == [] then []
    else (if links[0].userId == userId then [links[0].contactId] else []) + LinkedIds(links[1..], userId)
  }

  lemma {:induction false} LinkedIdsIff(links: seq<UserContact>, userId: int, c: int)
    ensures c in LinkedIds(links, userId) <==> UserContact(userId, c) in links
  {
    if links != [] {
      LinkedIdsIff(links[1..], userId, c);
      assert links == [links[0]] + links[1..];
    }
  }

  /** `findMany({ where: { userId }, include: { contact: true } })` mapped to id text and name. */
  function Views(t: Tables, userId: int): (r: seq<ContactView>)
    requires Valid(t)
    ensures |r| == |LinkedIds(t.links, userId)|
  {
    var ids := LinkedIds(t.links, userId);
    seq(|ids|, i requires 0 <= i < |ids| =>
      var c := ids[i];
      LinkedIdsIff(t.links, userId, c);
      ContactView(JsInt.IntString(c), t.contacts[c].name))
  }

  /** `getContacts`. */
  function GetContactsOutcome(t: Tables, idParam: Option<string>, failAt: nat): (r: Reply)
    requires Valid(t)
    ensures r == Send(500, Text(GET_FAILED)) || (r.Send? && r.status == 200 && r.body.Contacts?)
    ensures r.Send? && r.status == 200 <==> idParam.Some? && BigIntParam(idParam).Some? && failAt >= 1
  {
    match BigIntParam(idParam)
    case None => Send(500, Text(GET_FAILED))
    case Some(userId) => if failAt == 0 then Send(500, Text(GET_FAILED)) else Send(200, Contacts(Views(t, userId)))
  }

  /**
   * A route id that is an integer's text, with no failing call, is answered with 200 and that
   * user's list; a missing or non-integer id, or a failing query, with 500.
   */
  lemma GetContactsReplies(t: Tables, idParam: Option<string>, failAt: nat)
    requires Valid(t)
    ensures BigIntParam(idParam).None? || failAt == 0 ==> GetContactsOutcome(t, idParam, failAt) == Send(500, Text(GET_FAILED))
    ensures forall u :: failAt >= 1 && idParam == Some(JsInt.IntString(u)) ==>
              GetContactsOutcome(t, idParam, failAt) == Send(200, Contacts(Views(t, u)))
  {
    forall u | failAt >= 1 && idParam == Some(JsInt.IntString(u))
      ensures GetContactsOutcome(t, idParam, failAt) == Send(200, Contacts(Views(t, u)))
    {
      JsInt.ParseBigIntOfIntString(u);
    }
  }

  /**
   * The list holds one entry per association of the user, in store order; each id converts
   * back to that contact's id and carries that contact's name.
   */
  lemma ContactsOfUser(t: Tables, userId: int)
    requires Valid(t)
    ensures var views, ids := Views(t, userId), LinkedIds(t.links, userId);
      && |views| == |ids|
      && forall i :: 0 <= i < |ids| ==>
           ids[i] in t.contacts
           && JsInt.ParseBigInt(views[i].id) == Some(ids[i])
           && views[i].name == t.contacts[ids[i]].name
  {
    var views, ids := Views(t, userId), LinkedIds(t.links, userId);
    forall i | 0 <= i < |ids|
      ensures ids[i] in t.contacts && JsInt.ParseBigInt(views[i].id) == Some(ids[i])
    {
      LinkedIdsIff(t.links, userId, ids[i]);
      JsInt.ParseBigIntOfIntString(ids[i]);
    }
  }

  /** A user without associations gets the empty list. */
  lemma {:induction false} NoLinksNoContacts(t: Tables, userId: int)
    requires Valid(t)
    requires forall l :: l in t.links ==> l.userId != userId
    ensures Views(t, userId) == []
  {
    NoLinksNoIds(t.links, userId);
  }

  lemma {:induction false} NoLinksNoIds(links: seq<UserContact>, userId: int)
    requires forall l :: l in links ==> l.userId != userId
    ensures LinkedIds(links, userId) == []
  {
    if links != [] {
      assert links[0] in links;
      NoLinksNoIds(links[1..], userId);
    }
  }

  /** `deleteContact`: removes the one association; an absent pair is an error. */
  function DeleteContactOutcome(t: Tables, userIdParam: Option<string>, contactIdParam: Option<string>,
                                failAt: nat): (r: (Tables, Reply))
    ensures r.1 == Send(200, Text(DELETED)) || r.1 == Send(500, Text(DELETE_FAILED))
    ensures r.1 == Send(200, Text(DELETED)) <==>
      && BigIntParam(userIdParam).Some? && BigIntParam(contactIdParam).Some? && failAt >= 1
      && UserContact(BigIntParam(userIdParam).value, BigIntParam(contactIdParam).value) in t.links
    ensures r.1 == Send(500, Text(DELETE_FAILED)) ==> r.0 == t
    ensures r.0.users == t.users && r.0.contacts == t.contacts && (forall l :: l in r.0.links ==> l in t.links)
  {
    var userId, contactId := BigIntParam(userIdParam), BigIntParam(contactIdParam);
    if userId.None? || contactId.None? then (t, Send(500, Text(DELETE_FAILED)))
    else
      var pair := UserContact(userId.value, contactId.value);
      if failAt == 0 || pair !in t.links then (t, Send(500, Text(DELETE_FAILED)))
      else (t.(links := Without(t.links, pair)), Send(200, Text(DELETED)))
  }

  /**
   * A successful delete removes exactly that association: users, contacts and every other
   * pair stay, and the contact is no longer listed for that user.
   */
  lemma DeleteOnlyThatPair(t: Tables, userId: int, contactId: int, failAt: nat)
    requires failAt >= 1 && UserContact(userId, contactId) in t.links
    ensures var (r, reply) := DeleteContactOutcome(t, Some(JsInt.IntString(userId)), Some(JsInt.IntString(contactId)), failAt);
      && reply == Send(200, Text(DELETED))
      && r.users == t.users && r.contacts == t.contacts
      && (forall l :: l != UserContact(userId, contactId) ==> (l in r.links <==> l in t.links))
      && contactId !in LinkedIds(r.links, userId)
  {
    JsInt.ParseBigIntOfIntString(userId);
    JsInt.ParseBigIntOfIntString(contactId);
    var r := DeleteContactOutcome(t, Some(JsInt.IntString(userId)), Some(JsInt.IntString(contactId)), failAt).0;
    LinkedIdsIff(r.links, userId, contactId);
  }

  /** Deleting keeps the tables valid. */
  lemma DeleteKeepsValid(t: Tables, userIdParam: Option<string>, contactIdParam: Option<string>, failAt: nat)
    requires Valid(t)
    ensures Valid(DeleteContactOutcome(t, userIdParam, contactIdParam, failAt).0)
  {
    var userId, contactId := BigIntParam(userIdParam), BigIntParam(contactIdParam);
    if userId.Some? && contactId.Some? {
      WithoutKeepsDistinct(t.links, UserContact(userId.value, contactId.value));
    }
  }

  /**
   * The delete route binds only `:id`, so `userId` and `contactId` are absent and every
   * request through it fails with 500 and changes nothing.
   */
  lemma RouteDeleteAlwaysFails(t: Tables, failAt: nat)
    ensures DeleteContactOutcome(t, None, None, failAt) == (t, Send(500, Text(DELETE_FAILED)))
  {
  }

  method DeleteContact(db: Database, userIdParam: Option<string>, contactIdParam: Option<string>, failAt: nat)
    returns (reply: Reply)
    modifies db
    ensures db.Snapshot() == DeleteContactOutcome(old(db.Snapshot()), userIdParam, contactIdParam, failAt).0
    ensures reply == DeleteContactOutcome(old(db.Snapshot()), userIdParam, contactIdParam, failAt).1
  {
    var userId := BigIntParam(userIdParam);
    var contactId := BigIntParam(contactIdParam);
    if userId.None? || contactId.None? {
      return Send(500, Text(DELETE_FAILED));
    }
    var pair := UserContact(userId.value, contactId.value);
    var found := db.FindLink(pair);
    if failAt == 0 || !found {
      return Send(500, Text(DELETE_FAILED));
    }
    db.DeleteLink(pair);
    reply := Send(200, Text(DELETED));
  }
}
