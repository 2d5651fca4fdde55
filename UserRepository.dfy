/**
  * The user store the services run against, kept in memory: rows by id, the
  * row order in which the store lists them (newest created first), and the
  * identity counter that hands out fresh ids.
  */
module Repositories {
  import opened Wrappers
  import opened Models

  /** Ids strictly decreasing: newest row first, and no id twice. */
  ghost predicate NewestFirst(ids: seq<int>) {
    forall i, j :: 0 <= i < j < |ids| ==> ids[i] > ids[j]
  }

  /** The first id in `ids` whose row carries `email`, as a lookup by email returns it. */
  function FirstWithEmail(ids: seq<int>, users: map<int, User>, email: string): (r: Option<int>)
    requires forall i :: 0 <= i < |ids| ==> ids[i] in users
    ensures r.None? <==> forall i :: 0 <= i < |ids| ==> users[ids[i]].email != email
    ensures r.Some? ==>
      exists k :: 0 <= k < |ids| && ids[k] == r.value && users[ids[k]].email == email &&
        forall i :: 0 <= i < k ==> users[ids[i]].email != email
    decreases |ids|
  {
    if |ids| == 0 then None
    else if users[ids[0]].email == email then Some(ids[0])
    else
      var r := FirstWithEmail(ids[1..], users, email);
      assert forall i :: 1 <= i < |ids| ==> ids[i] == ids[1..][i - 1];
      r
  }

  /** `ids` with `id` taken out, the rest in the same order. */
  function Without(ids: seq<int>, id: int): (r: seq<int>)
    ensures forall x :: x in r <==> x in ids && x != id
    ensures NewestFirst(ids) ==> NewestFirst(r)
    decreases |ids|
  {
    if |ids| == 0 then []
    else if ids[0] == id then Without(ids[1..], id)
    else
      var rest := Without(ids[1..], id);
      var r := [ids[0]] + rest;
      assert NewestFirst(ids) ==> NewestFirst(r) by {
        if NewestFirst(ids) {
          assert NewestFirst(ids[1..]) by {
            forall i, j | 0 <= i < j < |ids[1..]| ensures ids[1..][i] > ids[1..][j] {
              assert ids[1..][i] == ids[i + 1] && ids[1..][j] == ids[j + 1];
            }
          }
          forall x | x in rest ensures ids[0] > x {
            var k :| 0 <= k < |ids[1..]| && ids[1..][k] == x;
            assert ids[k + 1] == x;
          }
          forall i, j | 0 <= i < j < |r| ensures r[i] > r[j] {
            if i > 0 {
              assert r[i] == rest[i - 1] && r[j] == rest[j - 1];
            } else {
              assert r[j] == rest[j - 1] && r[j] in rest;
            }
          }
        }
      }
      r
  }

  /** Distinct ids: as many elements in the set as in the sequence. */
  lemma {:induction false} NewestFirstCount(ids: seq<int>)
    requires NewestFirst(ids)
    ensures |set x | x in ids| == |ids|
  {
    if |ids| > 0 {
      var tail := ids[1..];
      NewestFirstCount(tail);
      assert (set x | x in ids) == {ids[0]} + (set x | x in tail) by {
        forall x ensures x in ids <==> x == ids[0] || x in tail {
          if x in ids && x != ids[0] {
            var k :| 0 <= k < |ids| && ids[k] == x;
            assert tail[k - 1] == x;
          }
        }
      }
      assert ids[0] !in (set x | x in tail) by {
        forall k | 0 <= k < |tail| ensures tail[k] != ids[0] {
          assert tail[k] == ids[k + 1];
        }
      }
    }
  }

  /** No two rows share an email. */
  ghost predicate UniqueEmails(users: map<int, User>) {
    forall i, j :: i in users && j in users && users[i].email == users[j].email ==> i == j
  }

  /** Rewriting one row keeps emails unique when its email stays or is new to the table. */
  lemma RewritePreservesUniqueEmails(users: map<int, User>, id: int, row: User)
    requires UniqueEmails(users) && id in users
    requires row.email == users[id].email || forall j :: j in users ==> users[j].email != row.email
    ensures UniqueEmails(users[id := row])
  {
  }

  /** The rows carrying `email` are counted as more than zero exactly when there is one. */
  lemma OwnersCounted(users: map<int, User>, email: string)
    ensures |set id | id in users && users[id].email == email| > 0 <==>
      exists id :: id in users && users[id].email == email
  {
    var owners := set id | id in users && users[id].email == email;
    if exists id :: id in users && users[id].email == email {
      var id :| id in users && users[id].email == email;
      assert id in owners;
    } else {
      assert owners == {};
    }
  }

  /**
    * The columns an UPDATE writes: name, email, date of birth, designation and
    * update time come from `user`; the id, password hash and creation time of
    * the stored row are kept.
    */
  function UpdatedRow(row: User, user: User): (r: User)
    ensures r.userId == row.userId && r.passwordHash == row.passwordHash && r.createdAt == row.createdAt
    ensures r.name == user.name && r.email == user.email && r.dateOfBirth == user.dateOfBirth
    ensures r.designation == user.designation && r.updatedAt == user.updatedAt
  {
    row.(name := user.name, email := user.email, dateOfBirth := user.dateOfBirth,
         designation := user.designation, updatedAt := user.updatedAt)
  }

  class UserRepository {
    var users: map<int, User>
    var order: seq<int>
    var nextId: int
    /**
      * False models a store whose writes report failure: Update and Delete
      * affect no row, and Create returns an id that is not positive.
      */
    const acceptsWrites: bool

    ghost predicate Valid()
      reads this
    {
      && nextId >= 1
      && (forall id :: id in users ==> 0 < id < nextId && users[id].userId == id)
      && (forall i :: 0 <= i < |order| ==> order[i] in users)
      && (forall id :: id in users ==> id in order)
      && NewestFirst(order)
    }

    ghost predicate EmailsUnique()
      reads this
    {
      UniqueEmails(users)
    }

    constructor(acceptsWrites: bool)
      ensures Valid() && EmailsUnique()
      ensures users == map[] && order == [] && nextId == 1 && this.acceptsWrites == acceptsWrites
    {
      users := map[];
      order := [];
      nextId := 1;
      this.acceptsWrites := acceptsWrites;
    }

    /** Number of rows; the listing shows each of them once. */
    lemma RowCount()
      requires Valid()
      ensures |users| == |order|
    {
      NewestFirstCount(order);
      forall x ensures x in users.Keys <==> x in (set y | y in order) {
        if x in order {
          var k :| 0 <= k < |order| && order[k] == x;
        }
      }
      assert users.Keys == set x | x in order;
    }

    function GetById(userId: int): (r: Option<User>)
      reads this
      ensures r.None? <==> userId !in users
      ensures r.Some? ==> r.value == users[userId]
    {
      if userId in users then Some(users[userId]) else None
    }

    /** Whether the count of rows with this email is positive. */
    function EmailExists(email: string): (r: bool)
      reads this
      ensures r <==> exists id :: id in users && users[id].email == email
    {
      var owners := set id | id in users && users[id].email == email;
      OwnersCounted(users, email);
      |owners| > 0
    }

    /** A row with that email, if any; the first in listing order when there are several. */
    function GetByEmail(email: string): (r: Option<User>)
      reads this
      requires Valid()
      ensures r.None? <==> !EmailExists(email)
      ensures r.Some? ==> r.value.userId in users && users[r.value.userId] == r.value && r.value.email == email
      ensures EmailsUnique() ==> forall id :: id in users && users[id].email == email ==> r == Some(users[id])
    {
      match FirstWithEmail(order, users, email)
      case None => None
      case Some(id) => Some(users[id])
    }

    /** Every row, newest created first. */
    function GetAll(): (r: seq<User>)
      reads this
      requires Valid()
      ensures |r| == |order|
      ensures forall i :: 0 <= i < |r| ==> r[i] == users[order[i]]
    {
      var o, u := order, users;
      seq(|o|, i requires 0 <= i < |o| && o[i] in u => u[o[i]])
    }

    /** The listing holds every row exactly once, newest created first. */
    lemma GetAllComplete()
      requires Valid()
      ensures |GetAll()| == |users|
      ensures forall id :: id in users ==> exists i :: 0 <= i < |GetAll()| && GetAll()[i] == users[id]
      ensures forall i, j :: 0 <= i < j < |GetAll()| ==> GetAll()[i].userId > GetAll()[j].userId
    {
      RowCount();
      var all := GetAll();
      forall id | id in users ensures exists i :: 0 <= i < |all| && all[i] == users[id] {
        var k :| 0 <= k < |order| && order[k] == id;
        assert all[k] == users[id];
      }
    }

    /** Inserts `user` under a fresh id and returns that id, or returns 0 when no row is written. */
    method Create(user: User) returns (id: int)
      requires Valid()
      modifies this
      ensures Valid()
      ensures acceptsWrites ==>
        && id > 0 && id !in old(users) && id == old(nextId)
        && users == old(users)[id := user.(userId := id, updatedAt := None)]
        && order == [id] + old(order)
        && nextId == old(nextId) + 1
      ensures !acceptsWrites ==> id == 0 && unchanged(this)
    {
      if !acceptsWrites {
        return 0;
      }
      id := nextId;
      users := users[id := user.(userId := id, updatedAt := None)];
      order := [id] + order;
      nextId := nextId + 1;
    }

    /** Rewrites the row with `user.userId`; true iff a row was changed. */
    method Update(user: User) returns (updated: bool)
      requires Valid()
      modifies this
      ensures Valid()
      ensures updated <==> acceptsWrites && user.userId in old(users)
      ensures updated ==>
        && users == old(users)[user.userId := UpdatedRow(old(users)[user.userId], user)]
        && order == old(order) && nextId == old(nextId)
      ensures !updated ==> unchanged(this)
    {
      if !acceptsWrites || user.userId !in users {
        return false;
      }
      users := users[user.userId := UpdatedRow(users[user.userId], user)];
      forall i | 0 <= i < |order| ensures order[i] in users {
        assert order[i] in old(users);
      }
      return true;
    }

    /** Removes the row with `userId`; true iff a row was removed. */
    method Delete(userId: int) returns (deleted: bool)
      requires Valid()
      modifies this
      ensures Valid()
      ensures deleted <==> acceptsWrites && userId in old(users)
      ensures deleted ==>
        && users == old(users) - {userId}
        && order == Without(old(order), userId)
        && nextId == old(nextId)
      ensures !deleted ==> unchanged(this)
    {
      if !acceptsWrites || userId !in users {
        return false;
      }
      users := users - {userId};
      order := Without(order, userId);
      forall i | 0 <= i < |order| ensures order[i] in users {
        assert order[i] in order;
      }
      return true;
    }
  }
}
