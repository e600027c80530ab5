/**
 * The ownership-scoped contact store: every read, write and delete of the
 * `contacts` table is filtered by `user_id == caller`. The table is a value
 * held in storage order; the mutating operations return the new table
 * together with what the repository function returns.
 */
module Contacts {
  import opened Wrappers
  import opened Calendar
  import opened Query

  /** The authenticated caller; only its `id` scopes the queries. */
  datatype User = User(id: int, username: string, email: string)

  /** `ContactInputModel`: the five business fields a client supplies. */
  datatype ContactInput = ContactInput(
    name: string, surname: string, birthday: Date, email: string, phone: string)

  /** A row of the `contacts` table. */
  datatype Contact = Contact(
    id: int, name: string, surname: string, email: string, phone: string,
    birthday: Date, userId: int)

  /** The `contacts` table in storage order, with the next value of its id sequence. */
  datatype Store = Store(rows: seq<Contact>, nextId: int)

  /** The primary key holds: no two rows share an id. */
  predicate IdsUnique(rows: seq<Contact>) {
    forall i, j :: 0 <= i < j < |rows| ==> rows[i].id != rows[j].id
  }

  /** Ids are unique and the id sequence is ahead of every id handed out. */
  predicate Valid(db: Store) {
    IdsUnique(db.rows) && forall i :: 0 <= i < |db.rows| ==> db.rows[i].id < db.nextId
  }

  /** The five fields a client can set. */
  function Business(c: Contact): ContactInput {
    ContactInput(c.name, c.surname, c.birthday, c.email, c.phone)
  }

  /**
   * The update step: the five business fields are replaced by the client's,
   * while the row keeps its id and its owner.
   */
  function Overwrite(c: Contact, body: ContactInput): (r: Contact)
    ensures Business(r) == body
    ensures r.id == c.id && r.userId == c.userId
  {
    c.(name := body.name, surname := body.surname, birthday := body.birthday,
       email := body.email, phone := body.phone)
  }

  function Owns(uid: int): Contact -> bool {
    (c: Contact) => c.userId == uid
  }

  function IdOwnedBy(id: int, uid: int): Contact -> bool {
    (c: Contact) => c.id == id && c.userId == uid
  }

  function IdIsNot(id: int): Contact -> bool {
    (c: Contact) => c.id != id
  }

  function HasName(name: string): Contact -> bool {
    (c: Contact) => c.name == name
  }

  function HasSurname(surname: string): Contact -> bool {
    (c: Contact) => c.surname == surname
  }

  function HasEmail(email: string): Contact -> bool {
    (c: Contact) => c.email == email
  }

  function NameOwnedBy(name: string, uid: int): Contact -> bool {
    (c: Contact) => c.userId == uid && c.name == name
  }

  function SurnameOwnedBy(surname: string, uid: int): Contact -> bool {
    (c: Contact) => c.userId == uid && c.surname == surname
  }

  function EmailOwnedBy(email: string, uid: int): Contact -> bool {
    (c: Contact) => c.userId == uid && c.email == email
  }

  /** Every contact of the caller, in storage order. */
  function Owned(db: Store, user: User): seq<Contact> {
    Select(db.rows, Owns(user.id))
  }

  function Min(a: int, b: int): int {
    if a <= b then a else b
  }

  function Max(a: int, b: int): int {
    if a <= b then b else a
  }

  /** `get_contacts`: the caller's contacts, `offset(skip).limit(limit)`. */
  function GetContacts(db: Store, skip: nat, limit: nat, user: User): (r: seq<Contact>)
    ensures |r| == Min(limit, Max(0, |Owned(db, user)| - skip))
    ensures forall i :: 0 <= i < |r| ==> r[i] == Owned(db, user)[skip + i]
    ensures forall c :: c in r ==> c in db.rows && c.userId == user.id
  {
    var owned := Owned(db, user);
    var rest := if skip <= |owned| then owned[skip..] else [];
    var r := if limit <= |rest| then rest[..limit] else rest;
    assert forall c :: c in r ==> c in owned;
    r
  }

  /**
   * `get_contact`: the row with that id if the caller owns it. A row owned
   * by someone else gives `None`, exactly as a missing id does.
   */
  function GetContact(db: Store, contactId: int, user: User): (r: Option<Contact>)
    ensures r.None? <==> forall c :: c in db.rows ==> !(c.id == contactId && c.userId == user.id)
    ensures r.Some? ==> r.value in db.rows && r.value.id == contactId && r.value.userId == user.id
  {
    FirstMatch(db.rows, IdOwnedBy(contactId, user.id))
  }

  /**
   * `post_contact`: appends one row carrying the input's fields, the caller
   * as owner and the next id of the sequence, and returns it.
   */
  function PostContact(db: Store, body: ContactInput, user: User): (r: (Store, Contact))
    ensures Business(r.1) == body && r.1.userId == user.id
    ensures r.0.rows == db.rows + [r.1]
    ensures Valid(db) ==> Valid(r.0) && forall c :: c in db.rows ==> c.id != r.1.id
  {
    var c := Contact(db.nextId, body.name, body.surname, body.email, body.phone,
                     body.birthday, user.id);
    (Store(db.rows + [c], db.nextId + 1), c)
  }

  /**
   * `put_contact`: on a contact the caller owns, overwrites its five business
   * fields and returns it; otherwise returns `None` and changes nothing (no
   * upsert). The ORM writes the change back by primary key.
   */
  function PutContact(db: Store, contactId: int, body: ContactInput, user: User)
    : (r: (Store, Option<Contact>))
    ensures r.1.None? <==> GetContact(db, contactId, user).None?
    ensures r.1.None? ==> r.0 == db
    ensures r.1.Some? ==>
      r.1.value.id == contactId && r.1.value.userId == user.id && Business(r.1.value) == body
    ensures r.0.nextId == db.nextId && |r.0.rows| == |db.rows|
    ensures forall i :: 0 <= i < |db.rows| ==>
      r.0.rows[i].id == db.rows[i].id && r.0.rows[i].userId == db.rows[i].userId
    ensures forall i :: 0 <= i < |db.rows| && db.rows[i].id != contactId ==> r.0.rows[i] == db.rows[i]
    ensures r.1.Some? ==> forall i :: 0 <= i < |db.rows| && db.rows[i].id == contactId ==>
      Business(r.0.rows[i]) == body
    ensures Valid(db) ==> Valid(r.0)
  {
    var found := GetContact(db, contactId, user);
    if found.None? then (db, None)
    else
      var rows := seq(|db.rows|, i requires 0 <= i < |db.rows| =>
        if db.rows[i].id == found.value.id then Overwrite(db.rows[i], body) else db.rows[i]);
      (Store(rows, db.nextId), Some(Overwrite(found.value, body)))
  }

  /**
   * `delete_contact`: on a contact the caller owns, removes it by primary key
   * and returns the row as it was; otherwise returns `None` and changes nothing.
   */
  function DeleteContact(db: Store, contactId: int, user: User): (r: (Store, Option<Contact>))
    ensures r.1 == GetContact(db, contactId, user)
    ensures r.1.None? ==> r.0 == db
    ensures r.1.Some? ==> forall c :: c in r.0.rows <==> c in db.rows && c.id != contactId
    ensures r.0.nextId == db.nextId
    ensures Valid(db) ==> Valid(r.0)
  {
    var found := GetContact(db, contactId, user);
    if found.None? then (db, None)
    else
      var rows := Select(db.rows, IdIsNot(found.value.id));
      assert Valid(db) ==> Valid(Store(rows, db.nextId)) by {
        if Valid(db) {
          SelectKeepsValid(db.rows, IdIsNot(found.value.id), db.nextId);
        }
      }
      (Store(rows, db.nextId), found)
  }

  /** `match_by_name`: the caller's contacts with exactly that name, in storage order. */
  function MatchByName(db: Store, name: string, user: User): (r: seq<Contact>)
    ensures forall c :: c in r <==> c in db.rows && c.userId == user.id && c.name == name
    ensures r == Select(Owned(db, user), HasName(name))
  {
    SelectConj(db.rows, Owns(user.id), HasName(name), NameOwnedBy(name, user.id));
    Select(db.rows, NameOwnedBy(name, user.id))
  }

  /** `match_by_surname`: the caller's contacts with exactly that surname, in storage order. */
  function MatchBySurname(db: Store, surname: string, user: User): (r: seq<Contact>)
    ensures forall c :: c in r <==> c in db.rows && c.userId == user.id && c.surname == surname
    ensures r == Select(Owned(db, user), HasSurname(surname))
  {
    SelectConj(db.rows, Owns(user.id), HasSurname(surname), SurnameOwnedBy(surname, user.id));
    Select(db.rows, SurnameOwnedBy(surname, user.id))
  }

  /** `match_by_email`: the first of the caller's contacts with exactly that email. */
  function MatchByEmail(db: Store, email: string, user: User): (r: Option<Contact>)
    ensures r.None? <==> forall c :: c in db.rows ==> !(c.userId == user.id && c.email == email)
    ensures r.Some? ==> r.value in db.rows && r.value.userId == user.id && r.value.email == email
    ensures r.Some? ==> r.value == Select(Owned(db, user), HasEmail(email))[0]
  {
    SelectConj(db.rows, Owns(user.id), HasEmail(email), EmailOwnedBy(email, user.id));
    FirstMatch(db.rows, EmailOwnedBy(email, user.id))
  }

  /** Dropping rows keeps the primary key and the id sequence ahead of every id. */
  lemma {:induction false} SelectKeepsValid(rows: seq<Contact>, p: Contact -> bool, nextId: int)
    requires Valid(Store(rows, nextId))
    ensures Valid(Store(Select(rows, p), nextId))
  {
    if rows != [] {
      SelectKeepsValid(rows[1..], p, nextId);
      var head := if p(rows[0]) then [rows[0]] else [];
      var tail := Select(rows[1..], p);
      assert forall c :: c in tail ==> c.id != rows[0].id by {
        forall c | c in tail
          ensures c.id != rows[0].id
        {
          var j :| 0 <= j < |rows[1..]| && rows[1..][j] == c;
          assert rows[j + 1] == c;
        }
      }
      assert Select(rows, p) == head + tail;
    }
  }

  /** With unique ids, `get_contact` finds exactly the caller's row carrying that id. */
  lemma GetContactExact(db: Store, contactId: int, user: User, c: Contact)
    requires Valid(db)
    ensures GetContact(db, contactId, user) == Some(c) <==>
      c in db.rows && c.id == contactId && c.userId == user.id
  {
    var r := GetContact(db, contactId, user);
    if c in db.rows && c.id == contactId && c.userId == user.id {
      var i :| 0 <= i < |db.rows| && db.rows[i] == c;
      var j :| 0 <= j < |db.rows| && db.rows[j] == r.value;
      assert i == j;
    }
  }

  /**
   * Creating a contact and reading it back by its fresh id returns it with
   * the input's fields, to its owner only; reads of every other id are as
   * before.
   */
  lemma CreateThenGet(db: Store, body: ContactInput, user: User, other: User, id: int)
    requires Valid(db)
    ensures var (db', c) := PostContact(db, body, user);
      && GetContact(db', c.id, user) == Some(c)
      && Business(c) == body
      && (other.id != user.id ==> GetContact(db', c.id, other) == None)
      && (id != c.id ==> GetContact(db', id, other) == GetContact(db, id, other))
  {
    var (db', c) := PostContact(db, body, user);
    GetContactExact(db', c.id, user, c);
    FirstMatchAppend(db.rows, [c], IdOwnedBy(id, other.id));
  }

  /** After an update the owner reads back the updated row. */
  lemma UpdateThenGet(db: Store, contactId: int, body: ContactInput, user: User)
    requires Valid(db)
    ensures var (db', r) := PutContact(db, contactId, body, user);
      r.Some? ==> GetContact(db', contactId, user) == r
  {
    var (db', r) := PutContact(db, contactId, body, user);
    if r.Some? {
      var found := GetContact(db, contactId, user).value;
      var i :| 0 <= i < |db.rows| && db.rows[i] == found;
      assert db'.rows[i] == r.value;
      GetContactExact(db', contactId, user, r.value);
    }
  }

  /** With unique ids, dropping the rows with `id` cuts out exactly the row at `i`. */
  lemma RemoveById(rows: seq<Contact>, i: nat)
    requires IdsUnique(rows) && i < |rows|
    ensures Select(rows, IdIsNot(rows[i].id)) == rows[..i] + rows[i + 1..]
  {
    var p := IdIsNot(rows[i].id);
    forall j | 0 <= j < |rows| && j != i
      ensures p(rows[j])
    {
    }
    SelectRemoveAt(rows, p, i);
  }

  /** After a successful delete nobody, owner or not, can read that id. */
  lemma DeleteThenGet(db: Store, contactId: int, user: User, anyone: User)
    ensures var r := DeleteContact(db, contactId, user);
      r.1.Some? ==> GetContact(r.0, contactId, anyone) == None
  {
  }

  /**
   * A delete of an owned contact removes exactly that row and keeps the rest
   * in storage order.
   */
  lemma DeleteRemovesOne(db: Store, contactId: int, user: User)
    requires Valid(db)
    ensures var r := DeleteContact(db, contactId, user);
      r.1.Some? ==>
        && (exists k :: 0 <= k <= |r.0.rows| && db.rows == r.0.rows[..k] + [r.1.value] + r.0.rows[k..])
        && multiset(r.0.rows) == multiset(db.rows) - multiset{r.1.value}
  {
    var r := DeleteContact(db, contactId, user);
    if r.1.Some? {
      var rows, rest, gone := db.rows, r.0.rows, r.1.value;
      var i :| 0 <= i < |rows| && rows[i] == gone;
      RemoveById(rows, i);
      Splice(rows, rest, i);
    }
  }

  /**
   * A contact owned by someone else is indistinguishable from a missing one:
   * reading, updating and deleting it all answer `None` and change nothing.
   */
  lemma ForeignLooksMissing(db: Store, contactId: int, body: ContactInput, user: User)
    requires forall i :: 0 <= i < |db.rows| && db.rows[i].id == contactId ==> db.rows[i].userId != user.id
    ensures GetContact(db, contactId, user) == None
    ensures PutContact(db, contactId, body, user) == (db, None)
    ensures DeleteContact(db, contactId, user) == (db, None)
  {
  }
}
