/**
 * The agent's subscription logic: validate, look the address up, insert it.
 * The database is the subscriber set; whether the database fails on an insert
 * is an input.
 */
module VibeAgent {
  import opened Validators
  import opened SubscriberStore

  datatype SubscribeResult = SubscribeResult(success: bool, message: string)

  const AlreadySubscribed: string := "You're already subscribed! We'll notify you when Vibe Trading launches."
  const ThankYou: string := "Thank you for subscribing! We'll notify you when Vibe Trading launches."
  const FailedToSubscribe: string := "Failed to subscribe. Please try again later."

  /** The result of `subscribe_email` and the subscriber set after it, from the set before it. */
  function Subscribe(emails: set<string>, email: string, fault: bool): (r: (SubscribeResult, set<string>))
    ensures emails <= r.1 <= emails + {email}
    ensures r.0.success ==> email in r.1
    ensures !r.0.success ==> r.1 == emails
  {
    var (valid, error) := ValidateEmail(email);
    if !valid then (SubscribeResult(false, "Cannot subscribe: " + error), emails)
    else if email in emails then (SubscribeResult(true, AlreadySubscribed), emails)
    else if !fault then (SubscribeResult(true, ThankYou), emails + {email})
    else (SubscribeResult(false, FailedToSubscribe), emails)
  }

  /** `subscribe_email` over the store. */
  method SubscribeEmail(store: Store, email: string, fault: bool) returns (r: SubscribeResult)
    modifies store
    ensures (r, store.emails) == Subscribe(old(store.emails), email, fault)
  {
    var (valid, error) := ValidateEmail(email);
    if !valid {
      return SubscribeResult(false, "Cannot subscribe: " + error);
    }
    var exists_ := store.EmailExists(email);
    if exists_ {
      return SubscribeResult(true, AlreadySubscribed);
    }
    var added := store.AddEmail(email, fault);
    if added {
      return SubscribeResult(true, ThankYou);
    }
    return SubscribeResult(false, FailedToSubscribe);
  }

  /** Every stored address passed the validator. */
  ghost predicate AllValid(emails: set<string>) {
    forall e :: e in emails ==> ValidateEmail(e).0
  }

  /**
   * Each branch of `subscribe_email`: an invalid address is refused with the
   * validator's message; a stored one is reported as already subscribed; a new one
   * the database takes is stored with thanks; a failed insert is reported and
   * changes nothing. The set only ever gains the address asked for, and only a
   * valid one.
   */
  lemma SubscribeGuards(emails: set<string>, email: string, fault: bool)
    ensures !ValidateEmail(email).0 ==>
      Subscribe(emails, email, fault) == (SubscribeResult(false, "Cannot subscribe: " + ValidateEmail(email).1), emails)
    ensures ValidateEmail(email).0 && email in emails ==>
      Subscribe(emails, email, fault) == (SubscribeResult(true, AlreadySubscribed), emails)
    ensures ValidateEmail(email).0 && email !in emails && !fault ==>
      Subscribe(emails, email, fault) == (SubscribeResult(true, ThankYou), emails + {email})
    ensures ValidateEmail(email).0 && email !in emails && fault ==>
      Subscribe(emails, email, fault) == (SubscribeResult(false, FailedToSubscribe), emails)
    ensures Subscribe(emails, email, fault).1 == emails ||
      (Subscribe(emails, email, fault).1 == emails + {email} && ValidateEmail(email).0 && email !in emails)
    ensures AllValid(emails) ==> AllValid(Subscribe(emails, email, fault).1)
  {
  }

  /**
   * With only valid addresses stored, the call reports success exactly when the
   * address is stored afterwards.
   */
  lemma SuccessMeansStored(emails: set<string>, email: string, fault: bool)
    requires AllValid(emails)
    ensures Subscribe(emails, email, fault).0.success <==> email in Subscribe(emails, email, fault).1
  {
  }

  /**
   * Idempotence: after a successful call, a second call for the same address reports
   * that it is already subscribed and leaves the set as the first call left it,
   * whatever the database does.
   */
  lemma SubscribeIdempotent(emails: set<string>, email: string, fault1: bool, fault2: bool)
    requires Subscribe(emails, email, fault1).0.success
    ensures var after := Subscribe(emails, email, fault1).1;
      Subscribe(after, email, fault2) == (SubscribeResult(true, AlreadySubscribed), after)
  {
  }
}
