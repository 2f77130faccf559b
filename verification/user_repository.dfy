/**
 * The user repository over the `users` collection. The collection is
 * modelled as a table of documents kept in insertion order, which is taken
 * as the order an unsorted query returns them in, guarded by
 * two unique indexes: the implicit one on `_id` and the one on `email`
 * created when the database is initialised. The functions below give the
 * table semantics of each repository call; `UserStore` is the repository
 * object whose methods change the table in place.
 */
module UserRepository {
  import opened Wrappers
  import opened Go
  import opened ObjectIds
  import opened Errors
  import opened Entity

  /** The text of the server's duplicate-key write error (the index name and key are not modelled). */
  const DuplicateKeyText: string := "E11000 duplicate key error"

  /** A BSON datetime keeps whole milliseconds. */
  function ToBsonTime(t: Time): (r: Time)
    ensures r <= t < r + Millisecond
    ensures r % Millisecond == 0
  {
    t - t % Millisecond
  }

  /**
   * The document `InsertOne` writes for `u`: the `omitempty` tag drops a nil
   * `_id`, and the driver then generates `freshId` before sending the document;
   * times lose their sub-millisecond part.
   */
  function Document(u: User, freshId: ObjectId): User {
    u.(id := if u.id == NilObjectId then freshId else u.id,
       createdAt := ToBsonTime(u.createdAt),
       updatedAt := ToBsonTime(u.updatedAt))
  }

  /** What the `$set` of `UpdateUser` leaves in a stored document `v`. */
  function Overwritten(v: User, u: User, now: Time): User {
    v.(name := u.name, email := u.email, password := u.password, updatedAt := ToBsonTime(now))
  }

  ghost predicate UniqueIds(users: seq<User>) {
    forall i, j :: 0 <= i < j < |users| ==> users[i].id != users[j].id
  }

  ghost predicate UniqueEmails(users: seq<User>) {
    forall i, j :: 0 <= i < j < |users| ==> users[i].email != users[j].email
  }

  /** The invariant both unique indexes maintain. */
  ghost predicate Consistent(users: seq<User>) {
    UniqueIds(users) && UniqueEmails(users)
  }

  predicate HasId(users: seq<User>, id: ObjectId) {
    exists k :: 0 <= k < |users| && users[k].id == id
  }

  predicate HasEmail(users: seq<User>, email: string) {
    exists k :: 0 <= k < |users| && users[k].email == email
  }

  /** The position of the first document satisfying `p`, as a filtered `FindOne` sees it. */
  function FindFirst(users: seq<User>, p: User -> bool): (k: Option<nat>)
    ensures k.Some? ==> k.value < |users| && p(users[k.value])
    ensures k.Some? ==> forall j :: 0 <= j < k.value ==> !p(users[j])
    ensures k.None? ==> forall j :: 0 <= j < |users| ==> !p(users[j])
  {
    if users == [] then None
    else if p(users[0]) then Some(0)
    else
      match FindFirst(users[1..], p)
      case None => None
      case Some(k) => Some(k + 1)
  }

  /** The reply of a write and the table after it. */
  datatype Write<+T> = Write(reply: Result<T>, users: seq<User>)

  /** `GetUserById`: parse the id, then find the document with that `_id`. */
  function LookupById(users: seq<User>, id: string): (r: Result<User>)
    ensures ObjectIdFromHex(id).Invalid? ==> r == Fail(InvalidIdFormat(ObjectIdFromHex(id).cause))
    ensures r.Ok? <==> ObjectIdFromHex(id).Parsed? && HasId(users, ObjectIdFromHex(id).id)
    ensures r.Ok? ==> r.value in users && r.value.id == ObjectIdFromHex(id).id
    ensures ObjectIdFromHex(id).Parsed? && r.Fail? ==> r.err == NoDocuments
  {
    match ObjectIdFromHex(id)
    case Invalid(cause) => Fail(InvalidIdFormat(cause))
    case Parsed(oid) =>
      match FindFirst(users, (v: User) => v.id == oid)
      case Some(k) => Ok(users[k])
      case None => Fail(NoDocuments)
  }

  /** `GetUserByEmail`: exact, case-sensitive match on `email`. */
  function LookupByEmail(users: seq<User>, email: string): (r: Result<User>)
    ensures r.Ok? <==> HasEmail(users, email)
    ensures r.Ok? ==> r.value in users && r.value.email == email
    ensures r.Fail? ==> r.err == NoDocuments
  {
    match FindFirst(users, (v: User) => v.email == email)
    case Some(k) => Ok(users[k])
    case None => Fail(NoDocuments)
  }

  function Abs(x: int): nat {
    if x < 0 then -x else x
  }

  /**
   * `GetUserList`: `Find` with `SetSkip(offset)` and `SetLimit(limit)`. The
   * server refuses a negative skip; a zero limit means no limit and a
   * negative one returns at most `-limit` documents in a single batch.
   */
  function Page(users: seq<User>, offset: int, limit: int): (r: Result<seq<User>>)
    ensures r.Fail? <==> offset < 0
    ensures r.Ok? ==> offset + |r.value| <= |users| || r.value == []
    ensures r.Ok? ==> forall i :: 0 <= i < |r.value| ==> r.value[i] == users[offset + i]
    ensures r.Ok? && limit != 0 ==> |r.value| <= Abs(limit)
    ensures r.Ok? && (limit == 0 || |r.value| < Abs(limit)) ==> offset + |r.value| >= |users|
  {
    if offset < 0 then Fail(StoreFailure("BadValue: skip must be non-negative"))
    else
      var rest := if offset <= |users| then users[offset..] else [];
      var n := if limit == 0 || |rest| <= Abs(limit) then |rest| else Abs(limit);
      Ok(rest[..n])
  }

  /** `SaveUser`: `InsertOne`, refused by either unique index. */
  function Insert(users: seq<User>, u: User, freshId: ObjectId): (w: Write<User>)
    ensures w.reply.Ok? <==>
      !HasId(users, Document(u, freshId).id) && !HasEmail(users, u.email)
    ensures w.reply.Ok? ==> w.reply.value == u && w.users == users + [Document(u, freshId)]
    ensures w.reply.Fail? ==> w.reply.err.DuplicateKey? && w.users == users
  {
    var d := Document(u, freshId);
    if HasId(users, d.id) || HasEmail(users, d.email) then Write(Fail(DuplicateKey(DuplicateKeyText)), users)
    else Write(Ok(u), users + [d])
  }

  /** An insert keeps both unique indexes. */
  lemma InsertConsistent(users: seq<User>, u: User, freshId: ObjectId)
    requires Consistent(users)
    ensures Consistent(Insert(users, u, freshId).users)
  {
    var w := Insert(users, u, freshId);
    if w.reply.Ok? {
      var d := Document(u, freshId);
      forall i, j | 0 <= i < j < |w.users| ensures w.users[i].id != w.users[j].id && w.users[i].email != w.users[j].email {
        if j == |users| {
          assert w.users[j] == d && w.users[i] == users[i];
        }
      }
    }
  }

  /**
   * `UpdateUser`: `UpdateOne` on the first document whose `_id` is `u.id`,
   * setting name, email, password and the update time. No matching document is
   * not an error; an email held by another document is a duplicate key.
   */
  function Overwrite(users: seq<User>, u: User, now: Time): (w: Write<User>)
    ensures w.reply.Ok? ==> w.reply.value == u
    ensures w.reply.Fail? ==> w.reply.err.DuplicateKey? && w.users == users
    ensures !HasId(users, u.id) ==> w == Write(Ok(u), users)
    ensures |w.users| == |users|
    ensures forall i :: 0 <= i < |users| && users[i].id != u.id ==> w.users[i] == users[i]
  {
    match FindFirst(users, (v: User) => v.id == u.id)
    case None => Write(Ok(u), users)
    case Some(k) =>
      if exists j :: 0 <= j < |users| && j != k && users[j].email == u.email then
        Write(Fail(DuplicateKey(DuplicateKeyText)), users)
      else
        Write(Ok(u), users[k := Overwritten(users[k], u, now)])
  }

  /**
   * Under both unique indexes, a successful update sets the matching record
   * to `Overwritten`, and the update keeps both indexes; an email held by
   * another record is exactly what refuses it.
   */
  lemma OverwriteConsistent(users: seq<User>, u: User, now: Time)
    requires Consistent(users)
    ensures var w := Overwrite(users, u, now);
      w.reply.Ok? ==>
        forall i :: 0 <= i < |users| && users[i].id == u.id ==> w.users[i] == Overwritten(users[i], u, now)
    ensures var w := Overwrite(users, u, now);
      (w.reply.Fail? <==>
        exists i, j :: 0 <= i < |users| && 0 <= j < |users| && i != j && users[i].id == u.id && users[j].email == u.email)
    ensures Consistent(Overwrite(users, u, now).users)
  {
    var w := Overwrite(users, u, now);
    match FindFirst(users, (v: User) => v.id == u.id)
    case None =>
    case Some(k) =>
      if w.reply.Ok? {
        assert w.users == users[k := Overwritten(users[k], u, now)];
        forall i, j | 0 <= i < j < |w.users| ensures w.users[i].email != w.users[j].email {
          if i != k && j != k { assert w.users[i] == users[i] && w.users[j] == users[j]; }
        }
      }
  }

  lemma RemoveAtFacts(users: seq<User>, k: nat, oid: ObjectId)
    requires k < |users| && users[k].id == oid
    ensures Consistent(users) ==> Consistent(users[..k] + users[k + 1..])
    ensures Consistent(users) ==>
      forall v :: v in users[..k] + users[k + 1..] <==> v in users && v.id != oid
  {
    var rest := users[..k] + users[k + 1..];
    assert forall i :: 0 <= i < |rest| ==> rest[i] == users[if i < k then i else i + 1];
    if Consistent(users) {
      forall v ensures v in rest <==> v in users && v.id != oid {
        if v in users && v.id != oid {
          var i :| 0 <= i < |users| && users[i] == v;
          assert rest[if i < k then i else i - 1] == v;
        }
      }
    }
  }

  /** `DeleteUser`: parse the id, then `DeleteOne` on the first document with that `_id`. */
  function Remove(users: seq<User>, id: string): (w: Write<()>)
    ensures ObjectIdFromHex(id).Invalid? ==>
      w == Write(Fail(InvalidIdFormat(ObjectIdFromHex(id).cause)), users)
    ensures ObjectIdFromHex(id).Parsed? ==> w.reply.Ok?
    ensures ObjectIdFromHex(id).Parsed? && !HasId(users, ObjectIdFromHex(id).id) ==> w.users == users
    ensures ObjectIdFromHex(id).Parsed? && HasId(users, ObjectIdFromHex(id).id) ==> |w.users| == |users| - 1
  {
    match ObjectIdFromHex(id)
    case Invalid(cause) => Write(Fail(InvalidIdFormat(cause)), users)
    case Parsed(oid) =>
      match FindFirst(users, (v: User) => v.id == oid)
      case None => Write(Ok(()), users)
      case Some(k) => Write(Ok(()), users[..k] + users[k + 1..])
  }

  /** Under both unique indexes, a delete leaves exactly the records with other ids, and keeps both indexes. */
  lemma RemoveConsistent(users: seq<User>, id: string)
    requires Consistent(users)
    ensures ObjectIdFromHex(id).Parsed? ==>
      forall v :: v in Remove(users, id).users <==> v in users && v.id != ObjectIdFromHex(id).id
    ensures Consistent(Remove(users, id).users)
  {
    match ObjectIdFromHex(id)
    case Invalid(_) =>
    case Parsed(oid) =>
      match FindFirst(users, (v: User) => v.id == oid)
      case None =>
      case Some(k) => RemoveAtFacts(users, k, oid);
  }

  /** Under the unique index on `_id`, every stored record is found by the hexadecimal form of its id. */
  lemma LookupByIdFinds(users: seq<User>, k: nat)
    requires Consistent(users) && k < |users|
    ensures LookupById(users, Hex(users[k].id)) == Ok(users[k])
  {
    HexRoundTrip(users[k].id);
    assert HasId(users, users[k].id);
    var r := LookupById(users, Hex(users[k].id));
    var j :| 0 <= j < |users| && users[j] == r.value;
    assert j == k;
  }

  /** Under the unique index on `email`, every stored record is found by its email. */
  lemma LookupByEmailFinds(users: seq<User>, k: nat)
    requires Consistent(users) && k < |users|
    ensures LookupByEmail(users, users[k].email) == Ok(users[k])
  {
    assert HasEmail(users, users[k].email);
    var r := LookupByEmail(users, users[k].email);
    var j :| 0 <= j < |users| && users[j] == r.value;
    assert j == k;
  }

  /** The repository object: the collection it holds, updated in place by the write methods. */
  class UserStore {
    var users: seq<User>

    ghost predicate Valid()
      reads this
    {
      Consistent(users)
    }

    /**
     * The repository over the `users` collection as it stands, which may
     * already hold documents; both unique indexes are taken to hold on them.
     */
    constructor (initial: seq<User>)
      requires Consistent(initial)
      ensures Valid() && users == initial
    {
      users := initial;
    }

    method GetUserById(id: string) returns (r: Result<User>)
      requires Valid()
      ensures r == LookupById(users, id)
    {
      r := LookupById(users, id);
    }

    method GetUserList(offset: Int64, limit: Int64) returns (r: Result<seq<User>>)
      requires Valid()
      ensures r == Page(users, offset, limit)
    {
      r := Page(users, offset, limit);
    }

    method GetUserByEmail(email: string) returns (r: Result<User>)
      requires Valid()
      ensures r == LookupByEmail(users, email)
    {
      r := LookupByEmail(users, email);
    }

    /** `freshId` is the identifier the driver generates when `user.id` is nil. */
    method SaveUser(user: User, freshId: ObjectId) returns (r: Result<User>)
      requires Valid()
      modifies this
      ensures Valid()
      ensures Write(r, users) == Insert(old(users), user, freshId)
    {
      InsertConsistent(users, user, freshId);
      var w := Insert(users, user, freshId);
      users := w.users;
      r := w.reply;
    }

    /** `now` is the `time.Now()` the update writes into `updated_at`. */
    method UpdateUser(user: User, now: Time) returns (r: Result<User>)
      requires Valid()
      modifies this
      ensures Valid()
      ensures Write(r, users) == Overwrite(old(users), user, now)
    {
      OverwriteConsistent(users, user, now);
      var w := Overwrite(users, user, now);
      users := w.users;
      r := w.reply;
    }

    method DeleteUser(id: string) returns (r: Result<()>)
      requires Valid()
      modifies this
      ensures Valid()
      ensures Write(r, users) == Remove(old(users), id)
    {
      RemoveConsistent(users, id);
      var w := Remove(users, id);
      users := w.users;
      r := w.reply;
    }
  }
}
