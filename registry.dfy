/**
 * The backend's three tables: users (with an optional Solana address), contacts, and the
 * user-to-contact associations. Associations keep their store order and reference existing
 * rows; a (user, contact) pair occurs at most once.
 */
module Registry {
  import opened Wrappers

  datatype User = User(name: string, solanaAddress: Option<string>)

  datatype Contact = Contact(name: string)

  datatype UserContact = UserContact(userId: int, contactId: int)

  /** The contents of the three tables at one moment. */
  datatype Tables = Tables(users: map<int, User>, contacts: map<int, Contact>, links: seq<UserContact>)

  /** What the database itself guarantees: unique association keys and existing endpoints. */
  predicate Valid(t: Tables)
  {
    && Distinct(t.links)
    && (forall l :: l in t.links ==> l.userId in t.users && l.contactId in t.contacts)
  }

  predicate Distinct(links: seq<UserContact>)
  {
    forall i, j :: 0 <= i < j < |links| ==> links[i] != links[j]
  }

  /** A contact as `getContacts` returns it: the id as text, and the name. */
  datatype ContactView = ContactView(id: string, name: string)

  datatype Body = Text(text: string) | Contacts(items: seq<ContactView>)

  /** The HTTP answer of a handler: a status and a body, or nothing sent at all. */
  datatype Reply = Send(status: nat, body: Body) | NoReply

  /** `prisma.user.upsert` with an empty update: a new row only when the id is absent. */
  function UpsertUser(t: Tables, id: int, name: string): (r: Tables)
    ensures id in r.users && r.contacts == t.contacts && r.links == t.links
    ensures forall k :: k in t.users ==> k in r.users && r.users[k] == t.users[k]
    ensures r.users.Keys == t.users.Keys + {id}
  {
    if id in t.users then t else t.(users := t.users[id := User(name, None)])
  }

  /** `prisma.contact.upsert` with an empty update. */
  function UpsertContact(t: Tables, id: int, name: string): (r: Tables)
    ensures id in r.contacts && r.users == t.users && r.links == t.links
    ensures forall k :: k in t.contacts ==> k in r.contacts && r.contacts[k] == t.contacts[k]
    ensures r.contacts.Keys == t.contacts.Keys + {id}
  {
    if id in t.contacts then t else t.(contacts := t.contacts[id := Contact(name)])
  }

  /** `links` without one pair, the others in their order. */
  function Without(links: seq<UserContact>, l: UserContact): (r: seq<UserContact>)
    ensures l !in r
    ensures forall m :: m in r <==> m in links && m != l
    ensures |r| <= |links|
  {
    if links == [] then []
    else (if links[0] == l then [] else [links[0]]) + Without(links[1..], l)
  }

  lemma {:induction false} WithoutKeepsDistinct(links: seq<UserContact>, l: UserContact)
    requires Distinct(links)
    ensures Distinct(Without(links, l))
  {
    if links != [] {
      WithoutKeepsDistinct(links[1..], l);
      var rest := Without(links[1..], l);
      assert links[0] !in links[1..] by {
        forall j | 0 <= j < |links[1..]| ensures links[1..][j] != links[0] {
          assert links[1..][j] == links[j + 1];
        }
      }
      assert links[0] !in rest;
      var r := Without(links, l);
      if links[0] != l {
        assert r == [links[0]] + rest;
        forall i, j | 0 <= i < j < |r| ensures r[i] != r[j] {
          if i == 0 {
            assert r[j] == rest[j - 1] && rest[j - 1] in rest;
          } else {
            assert r[i] == rest[i - 1] && r[j] == rest[j - 1];
            assert rest[i - 1] != rest[j - 1];
          }
        }
      } else {
        assert r == rest;
      }
    }
  }

  /** The database connection; the fields are the tables. */
  class Database {
    var users: map<int, User>
    var contacts: map<int, Contact>
    var links: seq<UserContact>

    constructor (t: Tables)
      ensures Snapshot() == t
    {
      users, contacts, links := t.users, t.contacts, t.links;
    }

    function Snapshot(): Tables
      reads this
    {
      Tables(users, contacts, links)
    }

    method UpsertUserRow(id: int, name: string)
      modifies this
      ensures Snapshot() == UpsertUser(old(Snapshot()), id, name)
    {
      if id !in users {
        users := users[id := User(name, None)];
      }
    }

    method UpsertContactRow(id: int, name: string)
      modifies this
      ensures Snapshot() == UpsertContact(old(Snapshot()), id, name)
    {
      if id !in contacts {
        contacts := contacts[id := Contact(name)];
      }
    }

    method FindLink(l: UserContact) returns (found: bool)
      ensures found <==> l in links
    {
      found := l in links;
    }

    method CreateLink(l: UserContact)
      modifies this
      ensures Snapshot() == old(Snapshot()).(links := old(links) + [l])
    {
      links := links + [l];
    }

    method DeleteLink(l: UserContact)
      modifies this
      ensures Snapshot() == old(Snapshot()).(links := Without(old(links), l))
    {
      links := Without(links, l);
    }

    method SetUser(id: int, row: User)
      modifies this
      ensures Snapshot() == old(Snapshot()).(users := old(users)[id := row])
    {
      users := users[id := row];
    }
  }
}
