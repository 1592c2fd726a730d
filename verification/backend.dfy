/** The hosted tables the dashboard reads and writes, as an in-memory value:
    "profiles" keyed by id and "customer_points" keyed by user_id. Each
    remote call's fate is an input, not something the model decides. */
module Backend {
  import opened Wrappers

  type Id = string

  /** A "profiles" row: the email it is looked up by and the two contact
      fields the import may overwrite (null is `None`). */
  datatype Profile = Profile(email: string, fullName: Option<string>, mobileNumber: Option<string>)

  /** A "customer_points" row. Neither the page nor the model bounds either field. */
  datatype Balance = Balance(points: int, totalEarned: int)

  datatype Store = Store(profiles: map<Id, Profile>, balances: map<Id, Balance>)

  /** `CustomerData`: one line of the dashboard's table, the inner join of a
      profile with its points row. */
  datatype CustomerData = CustomerData(
    userId: Id,
    email: string,
    fullName: Option<string>,
    mobileNumber: Option<string>,
    points: int,
    totalEarned: int)

  /** How a remote call ends: it completes, it resolves with `{ error }`
      (nothing is written), or its promise rejects (nothing is written). */
  datatype CallOutcome = Done | Rejected | Thrown

  /** The dashboard's view of customer `id`, present when both rows exist. */
  function CustomerView(store: Store, id: Id): (r: Option<CustomerData>)
    ensures r.Some? <==> id in store.profiles && id in store.balances
    ensures r.Some? ==> && r.value.userId == id
                        && r.value.email == store.profiles[id].email
                        && r.value.fullName == store.profiles[id].fullName
                        && r.value.mobileNumber == store.profiles[id].mobileNumber
                        && r.value.points == store.balances[id].points
                        && r.value.totalEarned == store.balances[id].totalEarned
  {
    if id in store.profiles && id in store.balances then
      var p := store.profiles[id];
      var b := store.balances[id];
      Some(CustomerData(id, p.email, p.fullName, p.mobileNumber, b.points, b.totalEarned))
    else None
  }

  /** A snapshot of `c` taken from the current store: what the dashboard
      shows right after it has re-fetched. */
  predicate IsCurrent(store: Store, c: CustomerData)
  {
    CustomerView(store, c.userId) == Some(c)
  }

  /** `id` is the one and only profile whose email is `email`. */
  ghost predicate UniqueMatch(profiles: map<Id, Profile>, email: string, id: Id)
  {
    && id in profiles && profiles[id].email == email
    && forall other :: other in profiles && profiles[other].email == email ==> other == id
  }

  lemma SingletonSet<T>(s: set<T>)
    requires |s| == 1
    ensures exists x :: s == {x}
  {
    var x :| x in s;
    assert |s - {x}| == 0;
    assert s == {x};
  }

  /** `.select("id").eq("email", email).maybeSingle()`: the profile is found
      only when exactly one row has that email; with none, or with several
      (which makes `maybeSingle` report an error), there is no data. */
  function FindByEmail(profiles: map<Id, Profile>, email: string): (r: Option<Id>)
    ensures forall id :: r == Some(id) <==> UniqueMatch(profiles, email, id)
  {
    var matches := set id | id in profiles && profiles[id].email == email;
    if |matches| == 1 then
      SingletonSet(matches);
      var id :| id in matches;
      assert matches == {id};
      assert forall other :: other in profiles && profiles[other].email == email ==> other in matches;
      assert UniqueMatch(profiles, email, id);
      Some(id)
    else
      assert forall id :: UniqueMatch(profiles, email, id) ==> matches == {id};
      None
  }

  /** `.update(b).eq("user_id", id)` on "customer_points": the row of `id`,
      if there is one, is replaced; no other row changes and none appears. */
  function SetBalance(store: Store, id: Id, b: Balance): (r: Store)
    ensures r.profiles == store.profiles
    ensures r.balances.Keys == store.balances.Keys
    ensures id in store.balances ==> r.balances[id] == b
    ensures forall other :: other in store.balances && other != id ==> r.balances[other] == store.balances[other]
  {
    if id in store.balances then store.(balances := store.balances[id := b]) else store
  }

  /** `.update({ points }).eq("user_id", id)`: only the current balance of
      `id` is replaced; its lifetime total stays. */
  function SetPoints(store: Store, id: Id, points: int): (r: Store)
    ensures r.profiles == store.profiles
    ensures r.balances.Keys == store.balances.Keys
    ensures id in store.balances ==> r.balances[id] == Balance(points, store.balances[id].totalEarned)
    ensures forall other :: other in store.balances && other != id ==> r.balances[other] == store.balances[other]
  {
    if id in store.balances then store.(balances := store.balances[id := store.balances[id].(points := points)]) else store
  }

  /** `.update({ full_name, mobile_number }).eq("id", id)` on "profiles": the
      email stays, the two contact fields are replaced. */
  function SetContact(store: Store, id: Id, fullName: Option<string>, mobileNumber: Option<string>): (r: Store)
    ensures r.balances == store.balances
    ensures r.profiles.Keys == store.profiles.Keys
    ensures id in store.profiles ==> r.profiles[id] == Profile(store.profiles[id].email, fullName, mobileNumber)
    ensures forall other :: other in store.profiles && other != id ==> r.profiles[other] == store.profiles[other]
  {
    if id in store.profiles then
      var p := store.profiles[id];
      store.(profiles := store.profiles[id := p.(fullName := fullName, mobileNumber := mobileNumber)])
    else store
  }

  /** `t` differs from `s` at most in the rows of `id`; no row appears or disappears. */
  ghost predicate AgreeExcept(s: Store, t: Store, id: Id)
  {
    && s.profiles.Keys == t.profiles.Keys
    && s.balances.Keys == t.balances.Keys
    && (forall other :: other in s.profiles && other != id ==> t.profiles[other] == s.profiles[other])
    && (forall other :: other in s.balances && other != id ==> t.balances[other] == s.balances[other])
  }

  /** Same rows, and every profile keeps its email. */
  ghost predicate SameEmails(s: Store, t: Store)
  {
    && s.profiles.Keys == t.profiles.Keys
    && s.balances.Keys == t.balances.Keys
    && forall id :: id in s.profiles ==> t.profiles[id].email == s.profiles[id].email
  }

  /** Looking a profile up by email depends only on the emails. */
  lemma FindByEmailSameEmails(s: Store, t: Store, email: string)
    requires SameEmails(s, t)
    ensures FindByEmail(s.profiles, email) == FindByEmail(t.profiles, email)
  {
    var a := FindByEmail(s.profiles, email);
    var b := FindByEmail(t.profiles, email);
    if a.Some? {
      assert UniqueMatch(t.profiles, email, a.value);
    }
    if b.Some? {
      assert UniqueMatch(s.profiles, email, b.value);
    }
  }
}
