/**
 * One newsletter subscriber record and the upsert-by-email that the import
 * command applies to it (`subscribe` in Console/Command/Import.php).
 *
 * The platform's collaborators are replaced by values: the subscriber table
 * is a sequence of records in id order, the customer repository is a map
 * keyed by email, and what `randomSequence()` and `save()` would do on one
 * call is an `Oracle`.
 */
module Subscribers {

  datatype Option<T> = None | Some(value: T)

  /** Magento's subscriber statuses: codes 1 (Subscribed), 2 (NotActive) and
      3 (Unsubscribed); `Other` stands for Unconfirmed (4) and any other code. */
  datatype Status = Subscribed | NotActive | Unsubscribed | Other

  /** The integer code of the Unsubscribed status, as it appears in the file. */
  const UnsubscribedCode: int := 3

  /** A subscriber as handed to `save()`. `statusChanged` is the transient flag
      the persistence layer reads to decide whether to send notifications. */
  datatype Subscriber = Subscriber(
    email: string,
    status: Status,
    confirmCode: string,
    storeId: int,
    customerId: int,
    statusChanged: bool)

  /** A customer account as the repository returns it. */
  datatype Customer = Customer(id: int, storeId: int)

  /** The subscriber rows of every store in id order: the record at index i
      has id i + 1, and saving a record that has no id appends it. */
  type Table = seq<Subscriber>

  /** What the platform answers during one `subscribe` call: the code that
      `randomSequence()` returns and whether `save()` completes without throwing. */
  datatype Oracle = Oracle(freshCode: string, saveSucceeds: bool)

  /** The boolean `subscribe` returns, together with the table it leaves. */
  datatype Effect = Effect(saved: bool, table: Table)

  /** A row that the lookup by store id and email selects. */
  predicate Matches(s: Subscriber, store: int, email: string)
  {
    s.storeId == store && s.email == email
  }

  /** `loadByEmail`: the index of the first row (lowest id) of the current
      store with this email, or none, which stands for a new record. */
  function Find(t: Table, store: int, email: string): (r: Option<nat>)
    ensures r.Some? ==> r.value < |t| && Matches(t[r.value], store, email)
    ensures r.Some? ==> forall j :: 0 <= j < r.value ==> !Matches(t[j], store, email)
    ensures r.None? ==> forall j :: 0 <= j < |t| ==> !Matches(t[j], store, email)
    decreases |t|
  {
    if t == [] then None
    else if Matches(t[0], store, email) then Some(0)
    else
      var rest := Find(t[1..], store, email);
      if rest.Some? then Some(rest.value + 1) else None
  }

  /** The index `save()` writes to: the row found, or a new row after the last one. */
  function Slot(t: Table, store: int, email: string): nat
  {
    var found := Find(t, store, email);
    if found.Some? then found.value else |t|
  }

  /** The customer repository's `get($email)`; None stands for the exception it throws. */
  function FindCustomer(customers: map<string, Customer>, email: string): Option<Customer>
  {
    if email in customers then Some(customers[email]) else None
  }

  /** The fields of a freshly created, never saved subscriber model. Every one
      of them is overwritten before a new record reaches `save()`. */
  const Blank: Subscriber := Subscriber("", Other, "", 0, 0, false)

  /** The record `subscribe` hands to `save()`, given the record the lookup
      found (if any) and the customer the repository returned (if any). */
  function Saved(found: Option<Subscriber>, customer: Option<Customer>, currentStore: int,
                 email: string, code: string): (s: Subscriber)
    // a confirm code is generated only for a record without an id
    ensures s.confirmCode == if found.Some? then found.value.confirmCode else code
    // new, Unsubscribed and NotActive records become Subscribed under the given email
    ensures found.None? || found.value.status in {Unsubscribed, NotActive} ==>
              s.status == Subscribed && s.email == email
    // any other found record keeps its status and its email
    ensures found.Some? && found.value.status !in {Unsubscribed, NotActive} ==>
              s.status == found.value.status && s.email == found.value.email
    // linked to the customer, or to the current store and no customer
    ensures customer.Some? ==> s.storeId == customer.value.storeId && s.customerId == customer.value.id
    ensures customer.None? ==> s.storeId == currentStore && s.customerId == 0
    ensures s.statusChanged
  {
    var base := if found.Some? then found.value else Blank;
    var reactivated := found.None? || base.status == Unsubscribed || base.status == NotActive;
    Subscriber(
      email := if reactivated then email else base.email,
      status := if reactivated then Subscribed else base.status,
      confirmCode := if found.None? then code else base.confirmCode,
      storeId := if customer.Some? then customer.value.storeId else currentStore,
      customerId := if customer.Some? then customer.value.id else 0,
      statusChanged := true)
  }

  /** The lookup finds a record and it is already Subscribed. */
  predicate AlreadySubscribed(t: Table, store: int, email: string)
  {
    var found := Find(t, store, email);
    found.Some? && t[found.value].status == Subscribed
  }

  /** What one `subscribe($email)` call does to the table and what it returns. */
  function Upsert(t: Table, customers: map<string, Customer>, currentStore: int,
                  email: string, o: Oracle): (e: Effect)
    // an existing record that is already Subscribed is skipped
    ensures AlreadySubscribed(t, currentStore, email) ==> e == Effect(false, t)
    // the result is true exactly when the save is reached and succeeds
    ensures e.saved <==> o.saveSucceeds && !AlreadySubscribed(t, currentStore, email)
    // a skip or a failed save leaves the table as it was
    ensures !e.saved ==> e.table == t
    // a successful save updates the found row in place, or appends a new row,
    // and leaves every other row as it was
    ensures e.saved ==> var w := Slot(t, currentStore, email);
              |e.table| == (if w < |t| then |t| else |t| + 1) &&
              (forall j {:trigger e.table[j]} :: 0 <= j < |t| && j != w ==> e.table[j] == t[j]) &&
              e.table[w] == Saved(if w < |t| then Some(t[w]) else None,
                                  FindCustomer(customers, email), currentStore, email, o.freshCode)
    // the saved record carries the email it was looked up by
    ensures e.saved ==> e.table[Slot(t, currentStore, email)].email == email
  {
    var found := Find(t, currentStore, email);
    var existing := if found.Some? then Some(t[found.value]) else None;
    if existing.Some? && existing.value.status == Subscribed then Effect(false, t)
    else if !o.saveSucceeds then Effect(false, t)
    else
      var record := Saved(existing, FindCustomer(customers, email), currentStore, email, o.freshCode);
      if found.Some? then Effect(true, t[found.value := record]) else Effect(true, t + [record])
  }

  /** A second call for the same email, after a successful first one, is skipped
      and changes nothing, provided the saved record is still found by the
      second lookup (no customer, or a customer of the current store) and its
      status is not Other. */
  lemma SecondSubscribeSkips(t: Table, customers: map<string, Customer>, currentStore: int,
                             email: string, first: Oracle, second: Oracle)
    requires Upsert(t, customers, currentStore, email, first).saved
    requires email !in customers || customers[email].storeId == currentStore
    requires var w := Slot(t, currentStore, email); w == |t| || t[w].status != Other
    ensures var t1 := Upsert(t, customers, currentStore, email, first).table;
            Upsert(t1, customers, currentStore, email, second) == Effect(false, t1)
  {
  }

  /** With a lookup that filters by the current store id, a record linked to
      a customer of another store is saved under that store, so the next
      lookup misses it: each call creates a further new record with a new
      confirm code. */
  lemma CrossStoreCustomerIsDuplicated(t: Table, customers: map<string, Customer>, currentStore: int,
                                       email: string, first: Oracle, second: Oracle)
    requires Find(t, currentStore, email).None?
    requires email in customers && customers[email].storeId != currentStore
    requires first.saveSucceeds && second.saveSucceeds
    ensures var t1 := Upsert(t, customers, currentStore, email, first).table;
            var t2 := Upsert(t1, customers, currentStore, email, second).table;
            |t2| == |t| + 2 && t2[..|t|] == t &&
            t2[|t|].email == email && t2[|t| + 1].email == email &&
            t2[|t|].confirmCode == first.freshCode && t2[|t| + 1].confirmCode == second.freshCode
  {
  }

  /** A record whose status is Other (Unconfirmed, say) is never skipped: every
      call saves it again, so the upsert is not idempotent for it. */
  lemma OtherStatusIsResaved(t: Table, customers: map<string, Customer>, currentStore: int,
                             email: string, first: Oracle, second: Oracle)
    requires Find(t, currentStore, email).Some? && t[Find(t, currentStore, email).value].status == Other
    requires email !in customers || customers[email].storeId == currentStore
    requires first.saveSucceeds && second.saveSucceeds
    ensures var t1 := Upsert(t, customers, currentStore, email, first).table;
            var w := Find(t, currentStore, email).value;
            t1[w].status == Other && Upsert(t1, customers, currentStore, email, second).saved
  {
  }
}
