/** The user store: one record per person signed in with the identity
    provider, keyed by that provider's user id (`clerkId`). */
module Users {

  datatype Option<T> = None | Some(value: T)

  /** Document ids: opaque to callers, handed out from a counter here. */
  type UserId = nat

  /** The argument object of syncUser. */
  datatype SyncArgs = SyncArgs(name: string, email: string, clerkId: string, image: Option<string>)

  /** The argument object of updateUser. */
  datatype UpdateArgs = UpdateArgs(clerkId: string, name: string, email: string, image: Option<string>)

  /** One document of the users table; `image` is absent when never supplied. */
  datatype User = User(id: UserId, name: string, email: string, clerkId: string, image: Option<string>)

  /** The document that inserting `args` under `id` stores. */
  function NewUser(id: UserId, args: SyncArgs): User {
    User(id, args.name, args.email, args.clerkId, args.image)
  }

  /** Some record carries `clerkId`. */
  ghost predicate Registered(rows: seq<User>, clerkId: string) {
    exists j :: 0 <= j < |rows| && rows[j].clerkId == clerkId
  }

  /** The number of records that carry `clerkId`. */
  function Count(rows: seq<User>, clerkId: string): nat {
    if rows == [] then 0
    else Count(rows[..|rows| - 1], clerkId) + (if rows[|rows| - 1].clerkId == clerkId then 1 else 0)
  }

  /** The lookup `.first()` of both handlers: the position of the oldest
      record carrying `clerkId`, if there is one. */
  function FindFirst(rows: seq<User>, clerkId: string): (r: Option<nat>)
    ensures r.Some? ==> r.value < |rows| && rows[r.value].clerkId == clerkId
    ensures r.Some? ==> forall j :: 0 <= j < r.value ==> rows[j].clerkId != clerkId
    ensures r.None? <==> !Registered(rows, clerkId)
  {
    if rows == [] then None
    else if rows[0].clerkId == clerkId then Some(0)
    else
      match FindFirst(rows[1..], clerkId)
      case None => None
      case Some(k) => Some(k + 1)
  }

  /** The table after syncUser(args) with `id` as the id an insert would get. */
  function Synced(rows: seq<User>, id: UserId, args: SyncArgs): (r: seq<User>)
    ensures |rows| <= |r| <= |rows| + 1 && r[..|rows|] == rows
    ensures Registered(r, args.clerkId)
    ensures |r| == |rows| + 1 <==> !Registered(rows, args.clerkId)
    ensures |r| == |rows| + 1 ==> r[|rows|] == NewUser(id, args)
  {
    if FindFirst(rows, args.clerkId).Some? then rows
    else
      var r := rows + [NewUser(id, args)];
      assert r[|rows|].clerkId == args.clerkId;
      r
  }

  /** `patch(user._id, args)`: name, email and clerkId are written, and the
      image only when the caller supplied one. */
  function Patched(user: User, args: UpdateArgs): (r: User)
    ensures r.id == user.id && r.clerkId == args.clerkId
    ensures r.name == args.name && r.email == args.email
    ensures r.image == (if args.image.Some? then args.image else user.image)
  {
    user.(clerkId := args.clerkId, name := args.name, email := args.email,
          image := if args.image.Some? then args.image else user.image)
  }

  /** The table after updateUser(args). */
  function Updated(rows: seq<User>, args: UpdateArgs): (r: seq<User>)
    ensures |r| == |rows|
    ensures forall j :: 0 <= j < |rows| ==> r[j].id == rows[j].id && r[j].clerkId == rows[j].clerkId
    ensures !Registered(rows, args.clerkId) ==> r == rows
    ensures FindFirst(rows, args.clerkId).Some? ==>
      var k := FindFirst(rows, args.clerkId).value;
      && r[k].name == args.name && r[k].email == args.email
      && r[k].image == (if args.image.Some? then args.image else rows[k].image)
      && forall j :: 0 <= j < |rows| && j != k ==> r[j] == rows[j]
  {
    match FindFirst(rows, args.clerkId)
    case None => rows
    case Some(k) => rows[k := Patched(rows[k], args)]
  }

  /** A record with `clerkId` exists exactly when the count is positive. */
  lemma {:induction false} CountPositive(rows: seq<User>, clerkId: string)
    ensures Count(rows, clerkId) > 0 <==> Registered(rows, clerkId)
  {
    if rows != [] {
      var older := rows[..|rows| - 1];
      CountPositive(older, clerkId);
      if Registered(older, clerkId) {
        var j :| 0 <= j < |older| && older[j].clerkId == clerkId;
        assert rows[j].clerkId == clerkId;
      }
      if Registered(rows, clerkId) && rows[|rows| - 1].clerkId != clerkId {
        var j :| 0 <= j < |rows| && rows[j].clerkId == clerkId;
        assert older[j].clerkId == clerkId;
      }
    }
  }

  /** Two tables whose records carry the same clerkIds position by position
      hold the same number of records for every clerkId. */
  lemma {:induction false} CountSameClerkIds(rows: seq<User>, other: seq<User>, clerkId: string)
    requires |rows| == |other|
    requires forall j :: 0 <= j < |rows| ==> rows[j].clerkId == other[j].clerkId
    ensures Count(rows, clerkId) == Count(other, clerkId)
  {
    if rows != [] {
      CountSameClerkIds(rows[..|rows| - 1], other[..|other| - 1], clerkId);
    }
  }

  /** A second syncUser with the same clerkId changes nothing. */
  lemma SyncIdempotent(rows: seq<User>, id: UserId, id': UserId, args: SyncArgs, args': SyncArgs)
    requires args'.clerkId == args.clerkId
    ensures Synced(Synced(rows, id, args), id', args') == Synced(rows, id, args)
  {
  }

  /** syncUser twice for a new clerkId leaves exactly one record with it. */
  lemma {:induction false} SyncTwiceLeavesOne(rows: seq<User>, id: UserId, id': UserId, args: SyncArgs, args': SyncArgs)
    requires args'.clerkId == args.clerkId && Count(rows, args.clerkId) == 0
    ensures Count(Synced(Synced(rows, id, args), id', args'), args.clerkId) == 1
  {
    CountPositive(rows, args.clerkId);
    var r := Synced(rows, id, args);
    assert r == rows + [NewUser(id, args)];
    assert r[..|r| - 1] == rows;
  }

  /** updateUser neither adds nor removes a record for any clerkId. */
  lemma UpdateKeepsCounts(rows: seq<User>, args: UpdateArgs, clerkId: string)
    ensures Count(Updated(rows, args), clerkId) == Count(rows, clerkId)
  {
    CountSameClerkIds(Updated(rows, args), rows, clerkId);
  }

  /** updateUser finds the same record again afterwards, so repeating it
      changes nothing more. */
  lemma UpdateIdempotent(rows: seq<User>, args: UpdateArgs)
    ensures Updated(Updated(rows, args), args) == Updated(rows, args)
  {
  }

  /** The users table of the data layer. */
  class UserTable {
    /** The documents in insertion order, which stands for creation-time order. */
    var rows: seq<User>
    /** The id the next insert hands out. */
    var nextId: UserId

    ghost predicate Valid()
      reads this
    {
      (forall i, j :: 0 <= i < j < |rows| ==> rows[i].id < rows[j].id)
      && forall i :: 0 <= i < |rows| ==> rows[i].id < nextId
    }

    constructor ()
      ensures Valid() && rows == []
    {
      rows := [];
      nextId := 0;
    }

    /** syncUser: insert the user unless one with that clerkId exists;
        return the new id, or nothing when the user was already there. */
    method SyncUser(args: SyncArgs) returns (r: Option<UserId>)
      requires Valid()
      modifies this
      ensures Valid()
      ensures r.None? <==> Registered(old(rows), args.clerkId)
      ensures r.None? ==> rows == old(rows) && nextId == old(nextId)
      ensures r.Some? ==> r.value == old(nextId) && nextId == r.value + 1
      ensures rows == Synced(old(rows), old(nextId), args)
    {
      var user := FindFirst(rows, args.clerkId);
      if user.Some? {
        return None;
      }
      rows := rows + [NewUser(nextId, args)];
      r := Some(nextId);
      nextId := nextId + 1;
    }

    /** updateUser: patch the first record with that clerkId, or do nothing
        when there is none. */
    method UpdateUser(args: UpdateArgs)
      requires Valid()
      modifies this
      ensures Valid()
      ensures nextId == old(nextId)
      ensures rows == Updated(old(rows), args)
    {
      var existingUser := FindFirst(rows, args.clerkId);
      if existingUser.None? {
        return;
      }
      var k := existingUser.value;
      rows := rows[k := Patched(rows[k], args)];
    }
  }
}
