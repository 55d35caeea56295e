/**
 * The bot's message handler: a shared Telegram contact is saved for the sender. The sender
 * and the contact get rows if they have none, and the association is created unless it
 * exists. The database calls are not in one transaction, so a failing call keeps the writes
 * made before it.
 */
module ContactBot {
  import opened Wrappers
  import JsInt
  import opened Registry

  datatype ContactCard = ContactCard(userId: Option<int>, firstName: Option<string>, lastName: Option<string>)

  datatype Message = Message(fromId: int, fromFirstName: Option<string>, fromLastName: Option<string>,
                             contact: Option<ContactCard>)

  const GOT_CONTACT: string := "Got a contact!"
  const MISSING_ID: string := "User ID is missing for the contact."
  const ALREADY_SAVED: string := "This contact is already saved."
  const SAVED: string := "Contact saved successfully."
  const FAILED: string := "An error occurred while processing the message."

  /** The number of database calls of a full run; a `failAt` this large means none throws. */
  const CALLS: nat := 4

  /** `` `${first || ""} ${last || ""}`.trim() `` */
  function DisplayName(first: Option<string>, last: Option<string>): string
  {
    JsInt.Trim(first.GetOr("") + " " + last.GetOr(""))
  }

  /** Names without surrounding white space are joined by one space; a missing last name leaves the first alone. */
  lemma DisplayNameOf(first: string, last: string)
    requires first != [] && !JsInt.IsSpace(first[0]) && !JsInt.IsSpace(first[|first| - 1])
    requires last != [] && !JsInt.IsSpace(last[0]) && !JsInt.IsSpace(last[|last| - 1])
    ensures DisplayName(Some(first), Some(last)) == first + " " + last
    ensures DisplayName(Some(first), None) == first
  {
    var both := first + " " + last;
    assert JsInt.TrimStart(both) == both;
    assert both[|both| - 1] == last[|last| - 1];
    assert JsInt.TrimEnd(both) == both;
    var alone := first + " " + "";
    assert JsInt.TrimStart(alone) == alone;
    assert alone[..|alone| - 1] == first;
    assert JsInt.TrimEnd(first) == first;
  }

  /** `!contactUserId`: absent or 0. */
  predicate MissingId(card: ContactCard)
  {
    card.userId.None? || card.userId.value == 0
  }

  /**
   * The tables and the replies after one message, when the database call numbered `failAt`
   * (from 0) throws; `failAt >= CALLS` means no call throws.
   */
  function MessageOutcome(t: Tables, m: Message, failAt: nat): (r: (Tables, seq<string>))
    ensures r.1 == [] <==> m.contact.None?
    ensures r.1 != [] ==> r.1 in {[GOT_CONTACT, MISSING_ID], [GOT_CONTACT, ALREADY_SAVED], [GOT_CONTACT, SAVED], [GOT_CONTACT, FAILED]}
    ensures r.1 == [] || r.1 == [GOT_CONTACT, MISSING_ID] || failAt == 0 ==> r.0 == t
    ensures r.1 == [GOT_CONTACT, SAVED] ==> m.contact.Some? && !MissingId(m.contact.value) && r.0.links == t.links + [UserContact(m.fromId, m.contact.value.userId.value)]
  {
    if m.contact.None? then (t, [])
    else
      var card := m.contact.value;
      if MissingId(card) then (t, [GOT_CONTACT, MISSING_ID])
      else if failAt == 0 then (t, [GOT_CONTACT, FAILED])
      else
        var t1 := UpsertUser(t, m.fromId, DisplayName(m.fromFirstName, m.fromLastName));
        if failAt == 1 then (t1, [GOT_CONTACT, FAILED])
        else
          var t2 := UpsertContact(t1, card.userId.value, DisplayName(card.firstName, card.lastName));
          Associate(t2, UserContact(m.fromId, card.userId.value), failAt)
  }

  /** After both upserts: look the association up and create it if absent. */
  function Associate(t: Tables, link: UserContact, failAt: nat): (r: (Tables, seq<string>))
    ensures r.0.users == t.users && r.0.contacts == t.contacts
    ensures r.0.links == t.links || (r.0.links == t.links + [link] && link !in t.links)
  {
    if failAt == 2 then (t, [GOT_CONTACT, FAILED])
    else if link in t.links then (t, [GOT_CONTACT, ALREADY_SAVED])
    else if failAt == 3 then (t, [GOT_CONTACT, FAILED])
    else (t.(links := t.links + [link]), [GOT_CONTACT, SAVED])
  }

  /** A message without a contact writes nothing and gets no reply. */
  lemma NoContactNoEffect(t: Tables, m: Message, failAt: nat)
    requires m.contact.None?
    ensures MessageOutcome(t, m, failAt) == (t, [])
  {
  }

  /** A contact without a user id writes nothing. */
  lemma MissingIdNoWrites(t: Tables, m: Message, failAt: nat)
    requires m.contact.Some? && MissingId(m.contact.value)
    ensures MessageOutcome(t, m, failAt) == (t, [GOT_CONTACT, MISSING_ID])
  {
  }

  /**
   * Whatever happens, existing user and contact rows are unchanged (names included), and the
   * associations only grow at the end, by at most the one pair of this message.
   */
  lemma NeverRewrites(t: Tables, m: Message, failAt: nat)
    ensures var r := MessageOutcome(t, m, failAt).0;
      && (forall k :: k in t.users ==> k in r.users && r.users[k] == t.users[k])
      && (forall k :: k in t.contacts ==> k in r.contacts && r.contacts[k] == t.contacts[k])
      && t.links <= r.links && |r.links| <= |t.links| + 1
  {
    if m.contact.Some? && !MissingId(m.contact.value) && failAt > 1 {
      var card := m.contact.value;
      var t1 := UpsertUser(t, m.fromId, DisplayName(m.fromFirstName, m.fromLastName));
      var t2 := UpsertContact(t1, card.userId.value, DisplayName(card.firstName, card.lastName));
      assert t2.links == t.links;
    }
  }

  /** The tables stay valid on every path, failures included. */
  lemma KeepsValid(t: Tables, m: Message, failAt: nat)
    requires Valid(t)
    ensures Valid(MessageOutcome(t, m, failAt).0)
  {
    var r := MessageOutcome(t, m, failAt).0;
    if m.contact.Some? && !MissingId(m.contact.value) && |r.links| > |t.links| {
      var link := UserContact(m.fromId, m.contact.value.userId.value);
      assert r.links == t.links + [link] && link !in t.links;
      forall i, j | 0 <= i < j < |r.links| ensures r.links[i] != r.links[j] {
        if j == |t.links| {
          assert r.links[i] == t.links[i];
        }
      }
    }
  }

  /**
   * A successful run saves the pair, and reports "saved" exactly when the pair was new and
   * "already saved" otherwise.
   */
  lemma SavedIff(t: Tables, m: Message, failAt: nat)
    requires failAt >= CALLS && m.contact.Some? && !MissingId(m.contact.value)
    ensures var link := UserContact(m.fromId, m.contact.value.userId.value);
      var (r, replies) := MessageOutcome(t, m, failAt);
      && link in r.links
      && (replies == [GOT_CONTACT, SAVED] <==> link !in t.links)
      && (replies == [GOT_CONTACT, ALREADY_SAVED] <==> link in t.links)
  {
  }

  /**
   * When a database call throws, the reply is the error text, unless the throwing call would
   * have been the final `create` and the pair was already saved, so that it is never made.
   */
  lemma FailureReply(t: Tables, m: Message, failAt: nat)
    requires failAt < CALLS && m.contact.Some? && !MissingId(m.contact.value)
    ensures MessageOutcome(t, m, failAt).1 == [GOT_CONTACT, FAILED]
            <==> failAt < 3 || UserContact(m.fromId, m.contact.value.userId.value) !in t.links
  {
    if failAt >= 2 {
      var card := m.contact.value;
      var t1 := UpsertUser(t, m.fromId, DisplayName(m.fromFirstName, m.fromLastName));
      var t2 := UpsertContact(t1, card.userId.value, DisplayName(card.firstName, card.lastName));
      assert t2.links == t.links;
    }
  }

  /** Handling the same message twice leaves the tables as the first time did. */
  lemma Idempotent(t: Tables, m: Message, failAt: nat)
    requires failAt >= CALLS
    ensures var once := MessageOutcome(t, m, failAt).0;
      MessageOutcome(once, m, failAt).0 == once
  {
    if m.contact.Some? && !MissingId(m.contact.value) {
      var card := m.contact.value;
      var once := MessageOutcome(t, m, failAt).0;
      SavedIff(t, m, failAt);
      var t1 := UpsertUser(once, m.fromId, DisplayName(m.fromFirstName, m.fromLastName));
      assert t1 == once;
      assert UpsertContact(t1, card.userId.value, DisplayName(card.firstName, card.lastName)) == once;
    }
  }

  /** The bot's `message` handler over the database, with its replies in order. */
  method OnMessage(db: Database, m: Message, failAt: nat) returns (replies: seq<string>)
    modifies db
    ensures db.Snapshot() == MessageOutcome(old(db.Snapshot()), m, failAt).0
    ensures replies == MessageOutcome(old(db.Snapshot()), m, failAt).1
  {
    replies := [];
    if m.contact.None? {
      return;
    }
    replies := replies + [GOT_CONTACT];
    var card := m.contact.value;
    var contactName := DisplayName(card.firstName, card.lastName);
    if MissingId(card) {
      replies := replies + [MISSING_ID];
      return;
    }
    var contactUserId := card.userId.value;
    var senderName := DisplayName(m.fromFirstName, m.fromLastName);
    if failAt == 0 {
      replies := replies + [FAILED];
      return;
    }
    db.UpsertUserRow(m.fromId, senderName);
    if failAt == 1 {
      replies := replies + [FAILED];
      return;
    }
    db.UpsertContactRow(contactUserId, contactName);
    if failAt == 2 {
      replies := replies + [FAILED];
      return;
    }
    var existing := db.FindLink(UserContact(m.fromId, contactUserId));
    if existing {
      replies := replies + [ALREADY_SAVED];
    } else if failAt == 3 {
      replies := replies + [FAILED];
    } else {
      db.CreateLink(UserContact(m.fromId, contactUserId));
      replies := replies + [SAVED];
    }
  }
}
