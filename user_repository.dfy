/** The in-memory user store: a dictionary of users keyed by id, an email
    index from each email to the id of the user holding it, and the insertion
    order of the users dictionary, which `ListAll` exposes
    (src/persistances/repositories/implementations/memory/user_repository.py). */
module UserRepositories {
  import opened Wrappers
  import opened Models

  /** Why a store operation refused to change anything. */
  datatype StoreError = DuplicateId | DuplicateEmail | UnknownId

  /** Every user is stored under its own id, and the email index is exactly
      the inverse of the users' email field. In particular no two stored users
      share an email. */
  ghost predicate IndexInverse(users: map<UserId, User>, index: map<Email, UserId>)
  {
    (forall id :: id in users ==>
       users[id].id == id && users[id].email in index && index[users[id].email] == id)
    && (forall e :: e in index ==> index[e] in users && users[index[e]].email == e)
  }

  /** No element occurs twice. */
  ghost predicate Distinct<T>(s: seq<T>)
  {
    forall i, j :: 0 <= i < j < |s| ==> s[i] != s[j]
  }

  /** `order` lists every stored id exactly once. */
  ghost predicate OrderMatches(order: seq<UserId>, users: map<UserId, User>)
  {
    Distinct(order) && (forall id :: id in users <==> id in order)
  }

  /** `s` without the occurrences of `x`, the rest in the same order. */
  function Without(s: seq<UserId>, x: UserId): (r: seq<UserId>)
    ensures forall y :: y in r <==> y in s && y != x
    ensures Distinct(s) ==> Distinct(r)
    ensures x !in s ==> r == s
  {
    if s == [] then []
    else if s[0] == x then Without(s[1..], x)
    else
      var rest := Without(s[1..], x);
      assert Distinct(s) ==> s[0] !in s[1..] by {
        if Distinct(s) {
          forall k | 0 <= k < |s[1..]|
            ensures s[1..][k] != s[0]
          {
            assert s[1..][k] == s[k + 1];
          }
        }
      }
      assert Distinct(s) ==> Distinct([s[0]] + rest) by {
        if Distinct(s) {
          DistinctCons(s[0], rest);
        }
      }
      [s[0]] + rest
  }

  /** The tail of an order without repeats has none either, and does not hold
      the head. */
  lemma DistinctTail(s: seq<UserId>)
    requires Distinct(s) && s != []
    ensures Distinct(s[1..]) && s[0] !in s[1..]
  {
    forall i, j | 0 <= i < j < |s[1..]|
      ensures s[1..][i] != s[1..][j]
    {
      assert s[1..][i] == s[i + 1] && s[1..][j] == s[j + 1];
    }
    forall j | 0 <= j < |s[1..]|
      ensures s[1..][j] != s[0]
    {
      assert s[1..][j] == s[j + 1];
    }
  }

  /** Cutting `s` around position `k > 0` is cutting its tail around `k - 1`. */
  lemma CutTail(s: seq<UserId>, k: nat)
    requires 0 < k < |s|
    ensures s[..k] + s[k + 1..] == [s[0]] + (s[1..][..k - 1] + s[1..][k..])
  {
    assert s[..k] == [s[0]] + s[1..][..k - 1];
    assert s[k + 1..] == s[1..][k..];
  }

  /** In an order without repeats, removing the id at position `k` closes the
      gap and keeps every other id in its place relative to the rest. */
  lemma {:induction false} WithoutAt(s: seq<UserId>, k: nat)
    requires Distinct(s) && k < |s|
    ensures Without(s, s[k]) == s[..k] + s[k + 1..]
  {
    DistinctTail(s);
    if k == 0 {
      WithoutHead(s);
    } else {
      var t := s[1..];
      assert t[k - 1] == s[k];
      WithoutAt(t, k - 1);
      WithoutKeepsHead(s, s[k]);
      CutTail(s, k);
    }
  }

  /** Removing the head of an order that does not repeat it leaves the tail. */
  lemma WithoutHead(s: seq<UserId>)
    requires s != [] && s[0] !in s[1..]
    ensures Without(s, s[0]) == s[..0] + s[1..]
  {
    assert s[..0] + s[1..] == s[1..];
  }

  /** Removing another id keeps the head in front. */
  lemma WithoutKeepsHead(s: seq<UserId>, x: UserId)
    requires s != [] && s[0] != x
    ensures Without(s, x) == [s[0]] + Without(s[1..], x)
  {
  }

  lemma DistinctCons<T>(x: T, s: seq<T>)
    requires Distinct(s) && x !in s
    ensures Distinct([x] + s)
  {
    var t := [x] + s;
    forall i, j | 0 <= i < j < |t|
      ensures t[i] != t[j]
    {
      if i == 0 {
        assert t[j] == s[j - 1];
      } else {
        assert t[i] == s[i - 1] && t[j] == s[j - 1];
      }
    }
  }

  /** The email index after replacing the stored record of `u.id` by `u`: the
      entry of the previous email moves to the new one when it changed. */
  function UpdatedIndex(users: map<UserId, User>, index: map<Email, UserId>, u: User): (r: map<Email, UserId>)
    requires u.id in users
    ensures users[u.id].email == u.email ==> r == index
    ensures users[u.id].email != u.email ==>
      u.email in r && r[u.email] == u.id && users[u.id].email !in r
    ensures forall e :: e != u.email && e != users[u.id].email ==> (e in r <==> e in index)
    ensures forall e :: e in index && e != u.email && e != users[u.id].email ==> e in r && r[e] == index[e]
  {
    var previous := users[u.id];
    if previous.email != u.email then (index - {previous.email})[u.email := u.id] else index
  }

  /** `u` carries an email that the index assigns to another user. */
  predicate EmailTakenByOther(index: map<Email, UserId>, u: User)
  {
    u.email in index && index[u.email] != u.id
  }

  /** Replacing a record keeps the two maps inverse exactly when the new email
      is not held by another user. */
  lemma UpdateKeepsInverseIff(users: map<UserId, User>, index: map<Email, UserId>, u: User)
    requires IndexInverse(users, index) && u.id in users
    ensures IndexInverse(users[u.id := u], UpdatedIndex(users, index, u)) <==> !EmailTakenByOther(index, u)
  {
    var users', index' := users[u.id := u], UpdatedIndex(users, index, u);
    if EmailTakenByOther(index, u) {
      var other := index[u.email];
      assert other in users' && users'[other].email == u.email;
      assert index'[u.email] == u.id != other;
    } else {
      var previous := users[u.id];
      forall id | id in users'
        ensures users'[id].id == id && users'[id].email in index' && index'[users'[id].email] == id
      {
        if id != u.id {
          assert users[id].email != previous.email;
          assert users[id].email != u.email;
        }
      }
      forall e | e in index'
        ensures index'[e] in users' && users'[index'[e]].email == e
      {
        if e != u.email {
          assert e in index && e != previous.email;
          assert index[e] != u.id;
        }
      }
    }
  }

  /** Two users with distinct emails; moving the second onto the first one's
      email breaks the index: the first user can no longer be found by email. */
  lemma UpdateMayBreakIndex()
    ensures var a := User("a@example.com", "h1", "1", true, 0);
      var b := User("b@example.com", "h2", "2", true, 0);
      var users := map["1" := a, "2" := b];
      var index := map["a@example.com" := "1", "b@example.com" := "2"];
      var moved := b.(email := "a@example.com");
      IndexInverse(users, index)
      && UpdatedIndex(users, index, moved)["a@example.com"] == "2"
      && !IndexInverse(users[moved.id := moved], UpdatedIndex(users, index, moved))
  {
    var a := User("a@example.com", "h1", "1", true, 0);
    var b := User("b@example.com", "h2", "2", true, 0);
    var users := map["1" := a, "2" := b];
    var index := map["a@example.com" := "1", "b@example.com" := "2"];
    var moved := b.(email := "a@example.com");
    assert IndexInverse(users, index);
    assert EmailTakenByOther(index, moved);
    UpdateKeepsInverseIff(users, index, moved);
  }

  /** Python's normalisation of a slice bound against a length `n`: a negative
      bound counts from the end, and both ends are clamped to 0..n. */
  function SliceBound(i: int, n: nat): (k: nat)
    ensures k <= n
  {
    if i < 0 then (if i + n < 0 then 0 else i + n)
    else if i > n then n
    else i
  }

  /** The Python slice `s[start:stop]`. */
  function Slice<T>(s: seq<T>, start: int, stop: int): (r: seq<T>)
    ensures |r| <= |s|
    ensures forall x :: x in r ==> x in s
  {
    var lo, hi := SliceBound(start, |s|), SliceBound(stop, |s|);
    if lo < hi then s[lo..hi] else []
  }

  function Min(a: int, b: int): int
  {
    if a <= b then a else b
  }

  /** A negative bound `-k` counts from the end: `s[-k:]` is the last `k`
      elements and `s[:-k]` all but them, both cut at the length. */
  lemma SliceFromEnd<T>(s: seq<T>, k: int)
    requires 0 < k
    ensures Slice(s, -k, |s|) == s[|s| - Min(k, |s|)..]
    ensures Slice(s, 0, -k) == s[..|s| - Min(k, |s|)]
  {
  }

  /** With a non-negative offset and limit, a page is the part of `s` from
      position `offset` up to `offset + limit`, and holds at most `limit`
      elements. */
  lemma SlicePage<T>(s: seq<T>, offset: int, limit: int)
    requires 0 <= offset && 0 <= limit
    ensures Slice(s, offset, offset + limit) == s[Min(offset, |s|)..Min(offset + limit, |s|)]
    ensures |Slice(s, offset, offset + limit)| <= limit
  {
  }

  /** Consecutive pages tile the sequence: no element is skipped or repeated. */
  lemma SlicesTile<T>(s: seq<T>, a: int, b: int, c: int)
    requires 0 <= a <= b <= c
    ensures Slice(s, a, b) + Slice(s, b, c) == Slice(s, a, c)
  {
    var n := |s|;
    var lo, mid, hi := Min(a, n), Min(b, n), Min(c, n);
    assert s[lo..hi] == s[lo..mid] + s[mid..hi];
  }

  /** The users of `ids`, in that order. */
  function UsersOf(ids: seq<UserId>, users: map<UserId, User>): (r: seq<User>)
    requires forall id :: id in ids ==> id in users
    ensures |r| == |ids|
    ensures forall i :: 0 <= i < |ids| ==> r[i] == users[ids[i]]
  {
    if ids == [] then [] else [users[ids[0]]] + UsersOf(ids[1..], users)
  }

  class InMemoryUserRepository {
    /** The users dictionary: id to user. */
    var users: map<UserId, User>
    /** The email index: email to the id of the user holding it. */
    var emailIndex: map<Email, UserId>
    /** The ids in the order they were first stored, which is the iteration
        order of the users dictionary. */
    var order: seq<UserId>

    ghost predicate Valid()
      reads this
    {
      IndexInverse(users, emailIndex) && OrderMatches(order, users)
    }

    constructor()
      ensures Valid()
      ensures users == map[] && emailIndex == map[] && order == []
    {
      users := map[];
      emailIndex := map[];
      order := [];
    }

    /** The stored user whose id is `id`. */
    function GetById(id: UserId): (r: Option<User>)
      requires Valid()
      reads this
      ensures r.Some? <==> id in users
      ensures r.Some? ==> r.value == users[id] && r.value.id == id
    {
      if id in users then Some(users[id]) else None
    }

    /** The stored user whose email is `e`. An empty id in the index counts as
        no user, as the index value is tested for truth before the lookup. */
    function GetByEmail(e: Email): (r: Option<User>)
      requires Valid()
      reads this
      ensures r.Some? ==> r.value.email == e && r.value.id in users && users[r.value.id] == r.value
      ensures r.None? <==> !exists id :: id in users && id != "" && users[id].email == e
    {
      if e in emailIndex && emailIndex[e] != "" then Some(users[emailIndex[e]]) else None
    }

    /** Whether some stored user has email `e`. */
    function ExistsByEmail(e: Email): (r: bool)
      requires Valid()
      reads this
      ensures r <==> exists id :: id in users && users[id].email == e
    {
      e in emailIndex
    }

    /** Stores a new user. Fails, changing nothing, when the id or the email is
        already taken; the id is checked first. */
    method Create(u: User) returns (r: Result<User, StoreError>)
      requires Valid()
      modifies this
      ensures Valid()
      ensures u.id in old(users) ==> r == Failure(DuplicateId)
      ensures u.id !in old(users) && u.email in old(emailIndex) ==> r == Failure(DuplicateEmail)
      ensures r.Failure? ==> unchanged(this)
      ensures r.Success? <==> u.id !in old(users) && u.email !in old(emailIndex)
      ensures r.Success? ==>
        r.value == u && users == old(users)[u.id := u] && emailIndex == old(emailIndex)[u.email := u.id]
        && order == old(order) + [u.id]
      ensures r.Success? ==>
        GetById(u.id) == Some(u) && ExistsByEmail(u.email)
        && GetByEmail(u.email) == if u.id != "" then Some(u) else None
    {
      if u.id in users {
        return Failure(DuplicateId);
      }
      if u.email in emailIndex {
        return Failure(DuplicateEmail);
      }
      users := users[u.id := u];
      emailIndex := emailIndex[u.email := u.id];
      order := order + [u.id];
      r := Success(u);
    }

    /** Replaces the record of `u.id` by `u`, moving the index entry when the
        email changed. It does not check that the new email is free, so the
        store stays valid exactly when it is. */
    method Update(u: User) returns (r: Result<User, StoreError>)
      requires Valid()
      modifies this
      ensures u.id !in old(users) ==> r == Failure(UnknownId) && unchanged(this)
      ensures u.id in old(users) ==>
        r == Success(u) && users == old(users)[u.id := u]
        && emailIndex == UpdatedIndex(old(users), old(emailIndex), u) && order == old(order)
      ensures r.Success? ==> (Valid() <==> !EmailTakenByOther(old(emailIndex), u))
    {
      if u.id !in users {
        return Failure(UnknownId);
      }
      var previous := users[u.id];
      if previous.email != u.email {
        emailIndex := emailIndex - {previous.email};
        emailIndex := emailIndex[u.email := u.id];
      }
      users := users[u.id := u];
      r := Success(u);
      UpdateKeepsInverseIff(old(users), old(emailIndex), u);
    }

    /** `Update` that refuses an email held by another user, so the store stays
        valid. */
    method UpdateChecked(u: User) returns (r: Result<User, StoreError>)
      requires Valid()
      modifies this
      ensures Valid()
      ensures u.id !in old(users) ==> r == Failure(UnknownId)
      ensures u.id in old(users) && EmailTakenByOther(old(emailIndex), u) ==> r == Failure(DuplicateEmail)
      ensures r.Failure? ==> unchanged(this)
      ensures r.Success? <==> u.id in old(users) && !EmailTakenByOther(old(emailIndex), u)
      ensures r.Success? ==>
        r.value == u && users == old(users)[u.id := u]
        && emailIndex == UpdatedIndex(old(users), old(emailIndex), u) && order == old(order)
    {
      if u.id !in users {
        return Failure(UnknownId);
      }
      if EmailTakenByOther(emailIndex, u) {
        return Failure(DuplicateEmail);
      }
      r := Update(u);
    }

    /** Removes the user `id` and its index entry; false, changing nothing,
        when there is no such user. */
    method Delete(id: UserId) returns (r: bool)
      requires Valid()
      modifies this
      ensures Valid()
      ensures r <==> id in old(users)
      ensures !r ==> unchanged(this)
      ensures r ==>
        users == old(users) - {id} && emailIndex == old(emailIndex) - {old(users)[id].email}
        && order == Without(old(order), id)
      ensures GetById(id).None?
    {
      if id !in users {
        return false;
      }
      var user := users[id];
      emailIndex := emailIndex - {user.email};
      users := users - {id};
      order := Without(order, id);
      r := true;
    }

    /** Marks the user `id` active, leaving the rest of its record as it was;
        false, changing nothing, when there is no such user. */
    method ActivateUser(id: UserId) returns (r: bool)
      requires Valid()
      modifies this
      ensures Valid()
      ensures r <==> id in old(users)
      ensures !r ==> unchanged(this)
      ensures r ==>
        users == old(users)[id := old(users)[id].(isActive := true)]
        && emailIndex == old(emailIndex) && order == old(order)
    {
      var user := GetById(id);
      if user.None? {
        return false;
      }
      var activated := user.value.(isActive := true);
      var updated := UpdateChecked(activated);
      assert updated.Success?;
      r := true;
    }

    /** Every stored user, in insertion order. */
    function AllUsers(): (all: seq<User>)
      requires Valid()
      reads this
      ensures |all| == |order|
      ensures forall i :: 0 <= i < |all| ==> all[i] == users[order[i]] && all[i].id == order[i]
      ensures forall u :: u in all ==> u.id in users && users[u.id] == u
    {
      UsersOf(order, users)
    }

    /** The page `users[offset : offset + limit]` of all users in insertion
        order, with Python's slice rules for negative bounds. */
    function ListAll(limit: int, offset: int): (page: seq<User>)
      requires Valid()
      reads this
      ensures forall u :: u in page ==> u.id in users && users[u.id] == u
      ensures 0 <= offset && 0 <= limit ==>
        |page| <= limit && page == AllUsers()[Min(offset, |order|)..Min(offset + limit, |order|)]
    {
      var all := AllUsers();
      if 0 <= offset && 0 <= limit then SlicePage(all, offset, limit); Slice(all, offset, offset + limit)
      else Slice(all, offset, offset + limit)
    }

    /** `list_all()` with its default arguments: the first 100 users in
        insertion order, or all of them when there are fewer. */
    function ListAllDefault(): (page: seq<User>)
      requires Valid()
      reads this
      ensures |page| == Min(100, |order|)
      ensures page == AllUsers()[..Min(100, |order|)]
    {
      ListAll(100, 0)
    }

    /** All users lists each stored user exactly once. */
    lemma AllUsersListsEachOnce()
      requires Valid()
      ensures forall id :: id in users ==> users[id] in AllUsers()
      ensures forall i, j :: 0 <= i < j < |AllUsers()| ==> AllUsers()[i].id != AllUsers()[j].id
    {
      var all := AllUsers();
      forall id | id in users
        ensures users[id] in all
      {
        var k :| 0 <= k < |order| && order[k] == id;
        assert all[k] == users[id];
      }
    }
  }
}
