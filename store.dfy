/**
 * The in-memory user store of store/userStore.js: a JavaScript `Map` from id to
 * user record, keyed by an auto-incrementing counter.
 *
 * A JavaScript `Map` iterates in key-insertion order, so it is modelled by two
 * fields: `users`, the key/value table, and `insertionOrder`, the keys in the
 * order they were first set.
 */
module Store {
  import opened Wrappers

  /** The ISO-8601 text of the wall clock at creation; opaque here. */
  type Timestamp = string

  /** A stored user record; `password` holds whatever the caller passed (the server passes a hash). */
  datatype User = User(id: nat, email: string, password: string, createdAt: Timestamp)

  /** The values of `m` listed in the order of `keys`. */
  function InOrder(keys: seq<nat>, m: map<nat, User>): seq<User>
    requires forall i :: 0 <= i < |keys| ==> keys[i] in m
  {
    seq(|keys|, i requires 0 <= i < |keys| => m[keys[i]])
  }

  /** No record of `records` has exactly this email. */
  ghost predicate NoMatch(records: seq<User>, email: string)
  {
    forall j :: 0 <= j < |records| ==> records[j].email != email
  }

  /** Position `k` holds the earliest record of `records` whose email is exactly `email`. */
  ghost predicate IsFirstMatch(records: seq<User>, email: string, k: int)
  {
    && 0 <= k < |records|
    && records[k].email == email
    && forall j :: 0 <= j < k ==> records[j].email != email
  }

  /** What findByEmail answers for a store whose records, in insertion order, are `records`. */
  function FindFirst(records: seq<User>, email: string): Option<User>
  {
    if records == [] then None
    else if records[0].email == email then Some(records[0])
    else FindFirst(records[1..], email)
  }

  /** The number of records whose email is exactly `email`. */
  function CountEmail(records: seq<User>, email: string): nat
  {
    if records == [] then 0
    else (if records[0].email == email then 1 else 0) + CountEmail(records[1..], email)
  }

  /** FindFirst finds nothing exactly when no record carries the email. */
  lemma {:induction false} FindFirstNone(records: seq<User>, email: string)
    ensures FindFirst(records, email).None? <==> NoMatch(records, email)
  {
    if records != [] && records[0].email != email {
      FindFirstNone(records[1..], email);
      assert forall j :: 1 <= j < |records| ==> records[j] == records[1..][j - 1];
    }
  }

  /** FindFirst returns the earliest matching record, never a later one. */
  lemma {:induction false} FindFirstIsFirstMatch(records: seq<User>, email: string, k: int)
    requires IsFirstMatch(records, email, k)
    ensures FindFirst(records, email) == Some(records[k])
  {
    if k > 0 {
      assert records[0].email != email;
      FindFirstIsFirstMatch(records[1..], email, k - 1);
    }
  }

  /** Whatever FindFirst returns is a record of the store carrying that email, and the earliest one. */
  lemma {:induction false} FindFirstSome(records: seq<User>, email: string) returns (k: nat)
    requires FindFirst(records, email).Some?
    ensures IsFirstMatch(records, email, k) && FindFirst(records, email) == Some(records[k])
  {
    if records[0].email == email {
      k := 0;
    } else {
      var k' := FindFirstSome(records[1..], email);
      k := k' + 1;
    }
  }

  /**
   * Appending a record never changes an earlier answer of FindFirst: with two records
   * of the same email, the first one inserted is the one found.
   */
  lemma {:induction false} FindFirstAppend(records: seq<User>, u: User, email: string)
    ensures FindFirst(records + [u], email) ==
      if FindFirst(records, email).Some? then FindFirst(records, email)
      else if u.email == email then Some(u)
      else None
  {
    if records == [] {
      assert records + [u] == [u];
    } else {
      assert (records + [u])[1..] == records[1..] + [u];
      FindFirstAppend(records[1..], u, email);
    }
  }

  /** Appending a record adds one to the count of its own email and leaves every other count alone. */
  lemma {:induction false} CountEmailAppend(records: seq<User>, u: User, email: string)
    ensures CountEmail(records + [u], email) ==
      CountEmail(records, email) + if u.email == email then 1 else 0
  {
    if records == [] {
      assert records + [u] == [u];
    } else {
      assert (records + [u])[1..] == records[1..] + [u];
      CountEmailAppend(records[1..], u, email);
    }
  }

  /** The count of an email no record carries is zero. */
  lemma {:induction false} CountEmailNoMatch(records: seq<User>, email: string)
    requires NoMatch(records, email)
    ensures CountEmail(records, email) == 0
  {
    if records != [] {
      assert forall j :: 0 <= j < |records[1..]| ==> records[1..][j] == records[j + 1];
      CountEmailNoMatch(records[1..], email);
    }
  }

  /** The store object of store/userStore.js (one instance is exported per process). */
  class UserStore {
    /** The `Map`'s key/value table: id to record. */
    var users: map<nat, User>
    /** The `Map`'s iteration order: every key, in the order it was first set. */
    var insertionOrder: seq<nat>
    /** The id the next `create` hands out. */
    var currentId: nat

    /**
     * The store's invariant: ids are handed out as 1, 2, 3, ... in insertion order,
     * every key is the id of its record, and every key lies below `currentId`.
     */
    ghost predicate Valid()
      reads this
    {
      && currentId == |insertionOrder| + 1
      && (forall i :: 0 <= i < |insertionOrder| ==> insertionOrder[i] == i + 1)
      && (forall id :: id in users <==> 0 < id < currentId)
      && (forall id :: id in users ==> users[id].id == id)
    }

    /** The records as `users.values()` iterates them: in insertion order. */
    function Records(): seq<User>
      reads this
      requires Valid()
    {
      InOrder(insertionOrder, users)
    }

    /** A fresh store holds no records and will hand out id 1 next. */
    constructor ()
      ensures Valid()
      ensures users == map[] && insertionOrder == [] && currentId == 1
      ensures Records() == []
    {
      users := map[];
      insertionOrder := [];
      currentId := 1;
    }

    /**
     * findByEmail: scan the records in insertion order and return the first whose
     * email equals `email` exactly (no case folding), or None.
     */
    method FindByEmail(email: string) returns (r: Option<User>)
      requires Valid()
      ensures r == FindFirst(Records(), email)
      ensures r.None? <==> NoMatch(Records(), email)
      ensures r.Some? ==> exists k :: IsFirstMatch(Records(), email, k) && Records()[k] == r.value
    {
      var i := 0;
      while i < |insertionOrder|
        invariant 0 <= i <= |insertionOrder|
        invariant forall j :: 0 <= j < i ==> Records()[j].email != email
      {
        var user := users[insertionOrder[i]];
        if user.email == email {
          assert Records()[i] == user;
          assert IsFirstMatch(Records(), email, i);
          FindFirstIsFirstMatch(Records(), email, i);
          return Some(user);
        }
        i := i + 1;
      }
      FindFirstNone(Records(), email);
      return None;
    }

    /**
     * create: stamp the record with `currentId` (post-increment) and `set` it in the
     * map. Email uniqueness is NOT checked here. The clock reading is a parameter.
     */
    method Create(email: string, password: string, createdAt: Timestamp) returns (user: User)
      requires Valid()
      modifies this
      ensures Valid()
      ensures user == User(old(currentId), email, password, createdAt)
      ensures currentId == old(currentId) + 1
      ensures old(currentId) !in old(users)
      ensures users == old(users)[user.id := user]
      ensures forall id :: id in old(users) ==> id in users && users[id] == old(users)[id]
      ensures Records() == old(Records()) + [user]
    {
      user := User(currentId, email, password, createdAt);
      currentId := currentId + 1;
      // Map.prototype.set: a new key joins the end of the iteration order, an existing key keeps its place
      if user.id !in users {
        insertionOrder := insertionOrder + [user.id];
      }
      users := users[user.id := user];
    }

    /**
     * getAll: every record, in insertion order. One record per `create` so far,
     * ids strictly increasing and all below `currentId`.
     */
    method GetAll() returns (all: seq<User>)
      requires Valid()
      ensures all == Records()
      ensures |all| == currentId - 1
      ensures forall i, j :: 0 <= i < j < |all| ==> all[i].id < all[j].id
      ensures forall i :: 0 <= i < |all| ==> 0 < all[i].id < currentId
      ensures forall i :: 0 <= i < |all| ==> all[i].id in users && users[all[i].id] == all[i]
    {
      all := InOrder(insertionOrder, users);
    }
  }

  /**
   * create does not reject a second record with an email already stored: both
   * records are kept, and findByEmail keeps answering with the first one.
   */
  method CreateSameEmailTwice(store: UserStore, email: string, p1: string, p2: string, t1: Timestamp, t2: Timestamp)
    returns (first: User, second: User, found: Option<User>)
    requires store.Valid()
    modifies store
    ensures store.Valid()
    ensures first.email == email && second.email == email && first.id < second.id
    ensures store.Records() == old(store.Records()) + [first, second]
    ensures CountEmail(store.Records(), email) == CountEmail(old(store.Records()), email) + 2
    ensures found == if FindFirst(old(store.Records()), email).Some? then FindFirst(old(store.Records()), email) else Some(first)
  {
    ghost var before := store.Records();
    first := store.Create(email, p1, t1);
    second := store.Create(email, p2, t2);
    found := store.FindByEmail(email);
    FindFirstAppend(before, first, email);
    FindFirstAppend(before + [first], second, email);
    assert before + [first] + [second] == before + [first, second];
    CountEmailAppend(before, first, email);
    CountEmailAppend(before + [first], second, email);
  }
}
