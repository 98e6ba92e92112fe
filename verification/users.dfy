/** The registered-user list, keyed in practice by mobile number (script.js
    `updateRegisteredUser` and the lookups of `handleLogin` / `handleSignup`). Nothing
    enforces the key: the upsert below is what keeps mobile numbers unique. */
module Users {
  import opened Wrappers
  import opened Text
  import opened Seqs

  /** A registered user. `userId` is `"USER"` followed by the registration timestamp,
      `registeredOn` that timestamp. */
  datatype User = User(
    userId: string,
    name: string,
    mobile: string,
    email: string,
    address: string,
    registeredOn: int)

  /** The logged-in customer kept in browser storage: the session. */
  datatype CustomerInfo = CustomerInfo(name: string, mobile: string, email: string, address: string)

  function UserIdAt(now: nat): string {
    "USER" + Decimal(now)
  }

  function HasMobile(mobile: string): User -> bool {
    (u: User) => u.mobile == mobile
  }

  /** How many users carry `mobile`. */
  function CountMobile(users: seq<User>, mobile: string): nat {
    CountIf(users, HasMobile(mobile))
  }

  /** No two users share a mobile number. */
  predicate UniqueMobiles(users: seq<User>) {
    forall i, j :: 0 <= i < j < |users| ==> users[i].mobile != users[j].mobile
  }

  /** `updateRegisteredUser`: the first user with this mobile gets the new name, address
      and email and keeps its id, mobile and registration date; with no such user, a new
      one registered at `now` is appended. */
  function Upsert(users: seq<User>, name: string, mobile: string, address: string, email: string, now: nat)
    : (r: seq<User>)
    ensures (exists k :: 0 <= k < |users| && users[k].mobile == mobile) ==>
      var i := FindIndex(users, HasMobile(mobile)).value;
      && |r| == |users|
      && r[i] == users[i].(name := name, address := address, email := email)
      && (forall j :: 0 <= j < |users| && j != i ==> r[j] == users[j])
    ensures (forall k :: 0 <= k < |users| ==> users[k].mobile != mobile) ==>
      r == users + [User(UserIdAt(now), name, mobile, email, address, now)]
  {
    match FindIndex(users, HasMobile(mobile))
    case Some(i) => users[i := users[i].(name := name, address := address, email := email)]
    case None => users + [User(UserIdAt(now), name, mobile, email, address, now)]
  }

  /** When `find` by mobile comes back empty, no stored user has the mobile and the upsert
      appends a new user. */
  lemma NewMobileAppends(users: seq<User>, name: string, mobile: string, address: string, email: string, now: nat)
    requires FindUser(users, mobile).None?
    ensures forall k :: 0 <= k < |users| ==> users[k].mobile != mobile
    ensures Upsert(users, name, mobile, address, email, now) == users + [User(UserIdAt(now), name, mobile, email, address, now)]
  {
    forall k | 0 <= k < |users|
      ensures users[k].mobile != mobile
    {
      assert !HasMobile(mobile)(users[k]);
    }
  }

  /** Position `k` holds the first user with `mobile`: the one `find` and `findIndex` pick. */
  predicate FirstWithMobile(users: seq<User>, mobile: string, k: nat) {
    k < |users| && users[k].mobile == mobile && forall j :: 0 <= j < k ==> users[j].mobile != mobile
  }

  /** `findIndex` by mobile lands on the first user with that mobile. */
  lemma FindFirstWithMobile(users: seq<User>, mobile: string, k: nat)
    requires FirstWithMobile(users, mobile, k)
    ensures FindIndex(users, HasMobile(mobile)) == Some(k)
  {
    var r := FindIndex(users, HasMobile(mobile));
    assert HasMobile(mobile)(users[k]);
    assert r.Some?;
    assert users[r.value].mobile == mobile;
  }

  /** A user appended under a fresh mobile is the first user with that mobile. */
  lemma AppendedIsFirst(users: seq<User>, u: User)
    requires forall k :: 0 <= k < |users| ==> users[k].mobile != u.mobile
    ensures FirstWithMobile(users + [u], u.mobile, |users|)
  {
    var r := users + [u];
    assert forall j :: 0 <= j < |users| ==> r[j] == users[j];
  }

  /** The first user with a mobile is unique, and it is the one `findIndex` finds. */
  lemma FirstWithMobileIsFound(users: seq<User>, mobile: string)
    ensures forall k: nat :: FirstWithMobile(users, mobile, k) ==> FindIndex(users, HasMobile(mobile)) == Some(k)
  {
    forall k: nat | FirstWithMobile(users, mobile, k)
      ensures FindIndex(users, HasMobile(mobile)) == Some(k)
    {
      FindFirstWithMobile(users, mobile, k);
    }
  }

  /** The upsert never rewrites a stored user's id or mobile, and never removes a user. */
  lemma UpsertKeepsKeys(users: seq<User>, name: string, mobile: string, address: string, email: string, now: nat)
    ensures var r := Upsert(users, name, mobile, address, email, now);
      && |r| >= |users|
      && forall k :: 0 <= k < |users| ==> r[k].userId == users[k].userId && r[k].mobile == users[k].mobile
  {
    match FindIndex(users, HasMobile(mobile))
    case Some(i) =>
      assert Upsert(users, name, mobile, address, email, now) == users[i := users[i].(name := name, address := address, email := email)];
    case None =>
  }

  /** The upsert never adds a second user for a mobile: the count for `mobile` becomes 1
      if it was 0 and is otherwise unchanged, and no other mobile's count moves. */
  lemma UpsertCounts(users: seq<User>, name: string, mobile: string, address: string, email: string, now: nat, m: string)
    ensures CountMobile(Upsert(users, name, mobile, address, email, now), m)
         == if m == mobile && CountMobile(users, m) == 0 then 1 else CountMobile(users, m)
  {
    var r := Upsert(users, name, mobile, address, email, now);
    match FindIndex(users, HasMobile(mobile))
    case Some(i) =>
      CountIfUpdate(users, i, r[i], HasMobile(m));
      assert r == users[i := r[i]];
      if m == mobile {
        assert users[i] in Filter(users, HasMobile(m));
      }
    case None =>
      var nu := User(UserIdAt(now), name, mobile, email, address, now);
      CountIfConcat(users, [nu], HasMobile(m));
      if m == mobile {
        FilterDropsAll(users, HasMobile(m));
      }
  }

  /** The upsert keeps mobile numbers unique. */
  lemma UpsertKeepsUnique(users: seq<User>, name: string, mobile: string, address: string, email: string, now: nat)
    requires UniqueMobiles(users)
    ensures UniqueMobiles(Upsert(users, name, mobile, address, email, now))
  {
  }

  /** `users.find(u => u.mobile === mobile)`. */
  function FindUser(users: seq<User>, mobile: string): Option<User> {
    Find(users, HasMobile(mobile))
  }

  /** The session a user logs in to: `email || ''` is the email itself here, the record
      always holding a string. */
  function SessionOf(u: User): CustomerInfo {
    CustomerInfo(u.name, u.mobile, u.email, u.address)
  }
}
