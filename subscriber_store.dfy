/**
 * The subscriber table, as the set of stored addresses. The table's `UNIQUE`
 * constraint is what makes an insert of a stored address fail.
 */
module SubscriberStore {

  class Store {
    var emails: set<string>

    constructor (initial: set<string>)
      ensures emails == initial
    {
      emails := initial;
    }

    /** `email_exists`: a lookup that changes nothing. */
    method EmailExists(email: string) returns (b: bool)
      ensures b <==> email in emails
    {
      b := email in emails;
    }

    /**
     * `add_email`: the insert succeeds exactly when the address is new and the
     * database does not fail (`fault`); only a successful insert changes the table.
     */
    method AddEmail(email: string, fault: bool) returns (ok: bool)
      modifies this
      ensures ok <==> !fault && email !in old(emails)
      ensures emails == if ok then old(emails) + {email} else old(emails)
    {
      if fault || email in emails {
        return false;
      }
      emails := emails + {email};
      return true;
    }
  }
}
