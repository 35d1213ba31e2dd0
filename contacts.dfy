/** The `contacts` table and the owner-scoped create / get / update / delete
    actions of app/Http/Controllers/ContactController.php. */
module Contacts {
  import opened Common
  import opened Http
  import Users

  /** One row of `contacts`. `firstName` is NOT NULL; the other columns are
      nullable; `userId` is the owning user. */
  datatype Contact = Contact(
    id: nat,
    firstName: string,
    lastName: Option<string>,
    email: Option<string>,
    phone: Option<string>,
    userId: nat)

  /** The validated body of a create or update request. `firstName` is
      required; the other keys are present only when the request sent them
      (possibly as null). The body has no way to name an owner. */
  datatype ContactInput = ContactInput(
    firstName: string,
    lastName: Field<Option<string>>,
    email: Field<Option<string>>,
    phone: Field<Option<string>>)

  /** The conjoined lookup condition: `userId = user AND id = requested`. */
  predicate OwnedWithId(c: Contact, userId: nat, id: int)
  {
    c.userId == userId && c.id == id
  }

  /** `Contact::where('userId', user)->where('id', id)->first()`: the position
      of the first row meeting both conditions. */
  function FindOwned(rows: seq<Contact>, userId: nat, id: int): (found: Option<nat>)
    ensures found.Some? ==> found.value < |rows| && OwnedWithId(rows[found.value], userId, id)
    ensures found.Some? ==> forall j :: 0 <= j < found.value ==> !OwnedWithId(rows[j], userId, id)
    ensures found.None? <==> forall j :: 0 <= j < |rows| ==> !OwnedWithId(rows[j], userId, id)
  {
    if rows == [] then None
    else if OwnedWithId(rows[0], userId, id) then Some(0)
    else match FindOwned(rows[1..], userId, id)
      case None => None
      case Some(k) => Some(k + 1)
  }

  /** `getContact` (and the `get` action, which returns its result): the row
      with the requested id, when it belongs to the caller, and otherwise the
      404 "Contact not found" failure. */
  function GetContact(rows: seq<Contact>, userId: nat, id: int): (r: Result<Contact>)
    ensures r.Success? ==> r.value in rows && r.value.userId == userId && r.value.id == id
    ensures r.Fail? ==> r.failure == ContactNotFound
    ensures r.Fail? <==> forall c :: c in rows ==> !OwnedWithId(c, userId, id)
  {
    match FindOwned(rows, userId, id)
    case Some(i) => Success(rows[i])
    case None => Fail(ContactNotFound)
  }

  /** The caller's own rows, in table order. */
  function OwnedBy(rows: seq<Contact>, userId: nat): (own: seq<Contact>)
    ensures |own| <= |rows|
    ensures forall i :: 0 <= i < |own| ==> own[i].userId == userId
  {
    if rows == [] then []
    else if rows[0].userId == userId then [rows[0]] + OwnedBy(rows[1..], userId)
    else OwnedBy(rows[1..], userId)
  }

  /** The caller's rows are exactly the rows of the table that the caller owns. */
  lemma {:induction false} OwnedByMembers(rows: seq<Contact>, userId: nat)
    ensures forall c :: c in OwnedBy(rows, userId) <==> c in rows && c.userId == userId
  {
    if rows != [] {
      OwnedByMembers(rows[1..], userId);
      assert rows == [rows[0]] + rows[1..];
    }
  }

  lemma {:induction false} OwnedByConcat(a: seq<Contact>, b: seq<Contact>, userId: nat)
    ensures OwnedBy(a + b, userId) == OwnedBy(a, userId) + OwnedBy(b, userId)
  {
    if a != [] {
      assert (a + b)[1..] == a[1..] + b;
      OwnedByConcat(a[1..], b, userId);
    } else {
      assert a + b == b;
    }
  }

  /** The single-row lookup sees only the caller's rows: its outcome, success
      or failure, is the same on the whole table as on the caller's part of it. */
  lemma {:induction false} GetContactSeesOnlyOwnRows(rows: seq<Contact>, userId: nat, id: int)
    ensures GetContact(rows, userId, id) == GetContact(OwnedBy(rows, userId), userId, id)
  {
    if rows != [] {
      GetContactSeesOnlyOwnRows(rows[1..], userId, id);
      var own := OwnedBy(rows, userId);
      if rows[0].userId == userId {
        assert own == [rows[0]] + OwnedBy(rows[1..], userId);
        assert own[1..] == OwnedBy(rows[1..], userId);
      }
    }
  }

  /** Ownership-opaque 404: rows of other users, whatever their ids, cannot
      change the outcome of a lookup. Inserting a foreign row anywhere leaves
      it exactly as it was, so "someone else's contact" and "no such contact"
      give the same "Contact not found". */
  lemma ForeignRowInvisible(rows: seq<Contact>, k: nat, foreign: Contact, userId: nat, id: int)
    requires k <= |rows| && foreign.userId != userId
    ensures GetContact(rows[..k] + [foreign] + rows[k..], userId, id) == GetContact(rows, userId, id)
  {
    var before, after := rows[..k], rows[k..];
    var grown := before + [foreign] + after;
    NotOwnedSingleton(foreign, userId);
    OwnedByConcat(before + [foreign], after, userId);
    OwnedByConcat(before, [foreign], userId);
    OwnedByConcat(before, after, userId);
    assert before + after == rows;
    assert OwnedBy(grown, userId) == OwnedBy(rows, userId);
    GetContactSeesOnlyOwnRows(grown, userId, id);
    GetContactSeesOnlyOwnRows(rows, userId, id);
  }

  /** Laravel's `fill` with validated data: `firstName` and every key the
      request sent overwrite the row; absent keys, the key and the owner stay. */
  function Fill(c: Contact, input: ContactInput): (r: Contact)
    ensures r.id == c.id && r.userId == c.userId
    ensures r.firstName == input.firstName
    ensures r.lastName == if input.lastName.Given? then input.lastName.value else c.lastName
    ensures r.email == if input.email.Given? then input.email.value else c.email
    ensures r.phone == if input.phone.Given? then input.phone.value else c.phone
  {
    c.(firstName := input.firstName,
       lastName := if input.lastName.Given? then input.lastName.value else c.lastName,
       email := if input.email.Given? then input.email.value else c.email,
       phone := if input.phone.Given? then input.phone.value else c.phone)
  }

  /** Filling twice with the same data changes nothing more. */
  lemma FillIdempotent(c: Contact, input: ContactInput)
    ensures Fill(Fill(c, input), input) == Fill(c, input)
  {
  }

  /** `new Contact($data)` followed by `$contact->userId = $user->id`: the new
      row holds the request's fields, NULL for the keys it did not send, the
      next key of the table, and the authenticated user as owner. */
  function NewContact(input: ContactInput, id: nat, userId: nat): (c: Contact)
    ensures c.id == id && c.userId == userId
    ensures c.firstName == input.firstName
    ensures input.lastName.Given? ==> c.lastName == input.lastName.value
    ensures input.email.Given? ==> c.email == input.email.value
    ensures input.phone.Given? ==> c.phone == input.phone.value
  {
    Fill(Contact(id, input.firstName, None, None, None, userId), input)
  }

  /** The new row does not depend on anything but the request's own fields:
      the owner comes from the caller only. */
  lemma NewContactOwner(input: ContactInput, id: nat, userId: nat)
    ensures NewContact(input, id, userId).userId == userId
    ensures NewContact(input, id, userId).firstName == input.firstName
    ensures input.lastName.Absent? ==> NewContact(input, id, userId).lastName == None
    ensures input.email.Absent? ==> NewContact(input, id, userId).email == None
    ensures input.phone.Absent? ==> NewContact(input, id, userId).phone == None
    ensures input.lastName.Given? ==> NewContact(input, id, userId).lastName == input.lastName.value
    ensures input.email.Given? ==> NewContact(input, id, userId).email == input.email.value
    ensures input.phone.Given? ==> NewContact(input, id, userId).phone == input.phone.value
  {
  }

  /** Keys are unique and below the next auto-increment value. */
  ghost predicate UniqueKeys(rows: seq<Contact>, nextId: nat)
  {
    && (forall i :: 0 <= i < |rows| ==> rows[i].id < nextId)
    && (forall i, j :: 0 <= i < j < |rows| ==> rows[i].id != rows[j].id)
  }

  /** Changing or removing one row of user `userId`, or appending one, leaves
      the rows of every other user exactly as they were. */
  lemma NotOwnedSingleton(c: Contact, userId: nat)
    requires c.userId != userId
    ensures OwnedBy([c], userId) == []
  {
  }

  lemma OthersUnaffectedByReplace(rows: seq<Contact>, i: nat, c: Contact, other: nat)
    requires i < |rows| && rows[i].userId != other && c.userId != other
    ensures OwnedBy(rows[i := c], other) == OwnedBy(rows, other)
  {
    var before, after := rows[..i], rows[i + 1..];
    assert rows == before + [rows[i]] + after;
    assert rows[i := c] == before + [c] + after;
    NotOwnedSingleton(rows[i], other);
    NotOwnedSingleton(c, other);
    OwnedByConcat(before + [rows[i]], after, other);
    OwnedByConcat(before, [rows[i]], other);
    OwnedByConcat(before + [c], after, other);
    OwnedByConcat(before, [c], other);
  }

  lemma OthersUnaffectedByRemove(rows: seq<Contact>, i: nat, other: nat)
    requires i < |rows| && rows[i].userId != other
    ensures OwnedBy(rows[..i] + rows[i + 1..], other) == OwnedBy(rows, other)
  {
    var before, after := rows[..i], rows[i + 1..];
    assert rows == before + [rows[i]] + after;
    NotOwnedSingleton(rows[i], other);
    OwnedByConcat(before + [rows[i]], after, other);
    OwnedByConcat(before, [rows[i]], other);
    OwnedByConcat(before, after, other);
  }

  lemma OthersUnaffectedByAppend(rows: seq<Contact>, c: Contact, other: nat)
    requires c.userId != other
    ensures OwnedBy(rows + [c], other) == OwnedBy(rows, other)
  {
    OwnedByConcat(rows, [c], other);
    NotOwnedSingleton(c, other);
  }

  /** Removing the row with key `id` from a table with unique keys keeps the
      keys unique and leaves no row with that key for its owner. */
  lemma RemovedKeyGone(rows: seq<Contact>, nextId: nat, i: nat, userId: nat, id: int)
    requires UniqueKeys(rows, nextId) && i < |rows| && OwnedWithId(rows[i], userId, id)
    ensures UniqueKeys(rows[..i] + rows[i + 1..], nextId)
    ensures forall c :: c in rows[..i] + rows[i + 1..] ==> !OwnedWithId(c, userId, id)
  {
    var rest := rows[..i] + rows[i + 1..];
    assert forall j :: 0 <= j < |rest| ==> rest[j] == rows[if j < i then j else j + 1];
    forall c | c in rest
      ensures !OwnedWithId(c, userId, id)
    {
      var j :| 0 <= j < |rest| && rest[j] == c;
    }
  }

  /** The `contacts` table: its rows in table order and the next value of the
      auto-increment key. */
  class ContactTable {
    var rows: seq<Contact>
    var nextId: nat

    ghost predicate Valid()
      reads this
    {
      UniqueKeys(rows, nextId)
    }

    constructor ()
      ensures Valid() && rows == [] && nextId == 1
    {
      rows := [];
      nextId := 1;
    }

    /** `create`: stores a new row owned by the authenticated user and answers
        201 with it; its owner can then read it back, and no other user's rows
        change. */
    method Create(user: Users.User, input: ContactInput) returns (contact: Contact, status: nat)
      requires Valid()
      modifies this
      ensures Valid()
      ensures contact == NewContact(input, old(nextId), user.id)
      ensures rows == old(rows) + [contact] && nextId == old(nextId) + 1
      ensures status == Created
      ensures GetContact(rows, user.id, contact.id) == Success(contact)
      ensures forall other :: other != user.id ==> OwnedBy(rows, other) == OwnedBy(old(rows), other)
    {
      contact := NewContact(input, nextId, user.id);
      rows := rows + [contact];
      nextId := nextId + 1;
      status := Created;
      assert rows[|rows| - 1] == contact;
      forall other | other != user.id
        ensures OwnedBy(rows, other) == OwnedBy(old(rows), other)
      {
        OthersUnaffectedByAppend(old(rows), contact, other);
      }
    }

    /** `update`: fills the row the owner-scoped lookup finds and answers with
        it; when the lookup fails the table is unchanged and the answer is 404
        "Contact not found". */
    method Update(user: Users.User, id: int, input: ContactInput) returns (r: Result<Contact>)
      requires Valid()
      modifies this
      ensures Valid() && nextId == old(nextId)
      ensures match FindOwned(old(rows), user.id, id)
        case None => r == Fail(ContactNotFound) && rows == old(rows)
        case Some(i) => rows == old(rows)[i := Fill(old(rows)[i], input)] && r == Success(rows[i])
      ensures r.Success? ==> GetContact(rows, user.id, id) == r
      ensures forall other :: other != user.id ==> OwnedBy(rows, other) == OwnedBy(old(rows), other)
    {
      var found := FindOwned(rows, user.id, id);
      match found
      case None =>
        r := Fail(ContactNotFound);
      case Some(i) =>
        var updated := Fill(rows[i], input);
        rows := rows[i := updated];
        r := Success(updated);
        forall other | other != user.id
          ensures OwnedBy(rows, other) == OwnedBy(old(rows), other)
        {
          OthersUnaffectedByReplace(old(rows), i, updated, other);
        }
        var again := FindOwned(rows, user.id, id);
        assert OwnedWithId(rows[i], user.id, id);
        assert again.Some?;
        assert again == Some(i);
    }

    /** `delete`: removes exactly the row the owner-scoped lookup finds and
        answers `data: true`; afterwards the id is no longer found. When the
        lookup fails the table is unchanged and the answer is 404. */
    method Delete(user: Users.User, id: int) returns (r: Result<bool>)
      requires Valid()
      modifies this
      ensures Valid() && nextId == old(nextId)
      ensures match FindOwned(old(rows), user.id, id)
        case None => r == Fail(ContactNotFound) && rows == old(rows)
        case Some(i) => rows == old(rows)[..i] + old(rows)[i + 1..] && r == Success(true)
      ensures r.Success? ==> GetContact(rows, user.id, id) == Fail(ContactNotFound)
      ensures forall other :: other != user.id ==> OwnedBy(rows, other) == OwnedBy(old(rows), other)
    {
      var found := FindOwned(rows, user.id, id);
      match found
      case None =>
        r := Fail(ContactNotFound);
      case Some(i) =>
        RemovedKeyGone(rows, nextId, i, user.id, id);
        rows := rows[..i] + rows[i + 1..];
        r := Success(true);
        forall other | other != user.id
          ensures OwnedBy(rows, other) == OwnedBy(old(rows), other)
        {
          OthersUnaffectedByRemove(old(rows), i, other);
        }
    }
  }
}
