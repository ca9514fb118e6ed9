/**
 * The console command `xigen:import-subscriber` as an object: `Subscribe`
 * changes the subscriber table the way `subscribe` does, by setting the
 * fields of one subscriber one at a time and then saving it, and `Execute`
 * runs the `foreach` loop of `execute` over the lines of the file.
 */
module Command {
  import opened Subscribers
  import opened Rows
  import opened Batch

  class ImportSubscribers {
    /** The subscriber rows of every store, in id order. `subscribe` reads and
        writes them through a lookup scoped to `currentStore`. */
    var subscribers: Table
    /** The customer repository, keyed by email; the command never changes it. */
    const customers: map<string, Customer>
    /** The store manager's current store id. */
    var currentStore: int

    constructor (subscribers: Table, customers: map<string, Customer>, currentStore: int)
      ensures this.subscribers == subscribers && this.customers == customers
      ensures this.currentStore == currentStore
    {
      this.subscribers := subscribers;
      this.customers := customers;
      this.currentStore := currentStore;
    }

    /** Subscribes `email`; `o` supplies the fresh confirm code and the outcome
        of the save. Returns whether the record was saved. */
    method Subscribe(email: string, o: Oracle) returns (saved: bool)
      modifies this`subscribers
      ensures saved == Upsert(old(subscribers), customers, currentStore, email, o).saved
      ensures subscribers == Upsert(old(subscribers), customers, currentStore, email, o).table
    {
      var found := Find(subscribers, currentStore, email);
      var subscriber := if found.Some? then subscribers[found.value] else Blank;

      if found.Some? && subscriber.status == Subscribed {
        return false;
      }

      if found.None? {
        subscriber := subscriber.(confirmCode := o.freshCode);
      }

      if found.None? || subscriber.status == Unsubscribed || subscriber.status == NotActive {
        subscriber := subscriber.(status := Subscribed);
        subscriber := subscriber.(email := email);
      }

      var customer := FindCustomer(customers, email);
      if customer.Some? {
        subscriber := subscriber.(storeId := customer.value.storeId);
        subscriber := subscriber.(customerId := customer.value.id);
      } else {
        subscriber := subscriber.(storeId := currentStore);
        subscriber := subscriber.(customerId := 0);
      }

      subscriber := subscriber.(statusChanged := true);

      if o.saveSucceeds {
        if found.Some? {
          subscribers := subscribers[found.value := subscriber];
        } else {
          subscribers := subscribers + [subscriber];
        }
        return true;
      }
      return false;
    }

    /** Runs the command on the lines of the export (header first). `isValid`
        is the email validator; `oracles[i]` answers the `subscribe` call made
        for line i. */
    method Execute(data: seq<Row>, importArg: string, isValid: string -> bool, oracles: seq<Oracle>)
      requires |oracles| == |data|
      modifies this`subscribers, this`currentStore
      ensures currentStore == CommandStore
      ensures subscribers == ImportFile(old(subscribers), customers, data, importArg, oracles, isValid)
    {
      currentStore := CommandStore;
      var importRows := DropHeader(data);
      var answers := DropHeader(oracles);

      if Truthy(importArg) {
        for i := 0 to |importRows|
          invariant currentStore == CommandStore
          invariant subscribers ==
                    ImportRows(old(subscribers), customers, CommandStore, importRows[..i], answers[..i], isValid)
        {
          assert importRows[..i + 1][..i] == importRows[..i] && answers[..i + 1][..i] == answers[..i];
          var row := importRows[i];

          var email := Trim(row.email);
          if !isValid(email) {
            continue;
          }
          if row.status == UnsubscribedCode {
            continue;
          }
          if row.website != TargetWebsite {
            continue;
          }

          var result := Subscribe(email, answers[i]);
        }
        assert importRows[..|importRows|] == importRows && answers[..|answers|] == answers;
      }
    }
  }
}
