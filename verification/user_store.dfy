/**
  The user collection as the backend sees it: a map from document id to user
  record, with the single query the handlers issue by email.
 */
module UserStore {
  import opened Wrappers

  /** Document ids. MongoDB ObjectIds grow with creation time, so the least id is
      the oldest document, which is the first one in the collection's natural order. */
  type UserId = nat

  /** A user document. `password` is whatever the user model stores (that model's
      hashing hook is not part of this model); `tokens` lists the bearer tokens issued
      to the user that are still honoured. */
  datatype UserRecord = UserRecord(name: string, email: string, password: string, tokens: seq<string>)

  type Store = map<UserId, UserRecord>

  /** No two users share an email address. */
  ghost predicate UniqueEmails(store: Store) {
    forall a, b :: a in store && b in store && store[a].email == store[b].email ==> a == b
  }

  /** A set of naturals holding `x` has a least element: either nothing in it is below `x`,
      or the element below `x` has one. */
  lemma {:induction false} LeastBelow(s: set<nat>, x: nat)
    requires x in s
    ensures exists m :: m in s && forall y :: y in s ==> m <= y
    decreases x
  {
    if y :| y in s && y < x {
      LeastBelow(s, y);
    } else {
      assert forall y :: y in s ==> x <= y;
    }
  }

  /** The least element of a non-empty set of naturals. */
  function Least(s: set<nat>): (m: nat)
    requires s != {}
    ensures m in s && forall y :: y in s ==> m <= y
  {
    var x :| x in s;
    LeastBelow(s, x);
    var m :| m in s && forall y :: y in s ==> m <= y;
    m
  }

  /** `User.findOne({ email })`: the oldest user with that email, if there is one. */
  function FindByEmail(store: Store, email: string): (r: Option<UserId>)
    ensures r.None? <==> forall id :: id in store ==> store[id].email != email
    ensures r.Some? ==> r.value in store && store[r.value].email == email
    ensures r.Some? ==> forall id :: id in store && store[id].email == email ==> r.value <= id
  {
    var ids := set id | id in store && store[id].email == email;
    assert forall id :: id in store && store[id].email == email ==> id in ids;
    if ids == {} then None else Some(Least(ids))
  }

  /** When emails are unique, the lookup finds the one user holding the address. */
  lemma FindByEmailUnique(store: Store, id: UserId)
    requires UniqueEmails(store) && id in store
    ensures FindByEmail(store, store[id].email) == Some(id)
  {
  }

  /** The lookup only looks at emails: a store with the same ids and emails answers alike. */
  lemma FindByEmailSameEmails(store: Store, store': Store, email: string)
    requires store'.Keys == store.Keys
    requires forall id :: id in store ==> store'[id].email == store[id].email
    ensures FindByEmail(store', email) == FindByEmail(store, email)
  {
    var r, r' := FindByEmail(store, email), FindByEmail(store', email);
    if r.Some? && r'.Some? {
      assert r.value <= r'.value && r'.value <= r.value;
    }
  }
}
