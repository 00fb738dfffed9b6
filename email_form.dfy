/**
 * The wait-list form: a submit that checks the address on the client and starts a
 * request, and the request's settling, which either marks the visitor as
 * wait-listed or shows a fixed error. The network's answer is an input.
 */
module EmailForm {
  import opened Wrappers
  import opened AuthState
  import Validators

  const InvalidAddress: string := "Please enter a valid email address"
  const SomethingWentWrong: string := "Something went wrong. Try again or ping us on X."

  /** How the request ended: a response (ok or not, with a body that parses or not), or a thrown error. */
  datatype FetchOutcome = Answer(ok: bool, bodyParses: bool) | NetworkError

  /** The client's own check: some text, holding an '@'. */
  predicate LooksLikeEmail(email: string) {
    email != [] && '@' in email
  }

  class Form {
    var email: string
    var loading: bool
    var error: Option<string>
    var success: bool
    /** The access level shared with the rest of the site. */
    var status: Status

    /** A pending request has cleared the error; after success the form is gone, empty and quiet. */
    ghost predicate Valid()
      reads this
    {
      (loading ==> error == None && !success) &&
      (success ==> !loading && error == None && email == [])
    }

    constructor (status: Status)
      ensures Valid()
      ensures email == [] && !loading && error == None && !success && this.status == status
    {
      email := [];
      loading := false;
      error := None;
      success := false;
      this.status := status;
    }

    /** The input's change handler; the input is disabled while loading and gone after success. */
    method SetEmail(text: string)
      requires Valid() && !loading && !success
      modifies this`email
      ensures Valid() && email == text
    {
      email := text;
    }

    /**
     * `handleSubmit` up to the request: an address that is empty or has no '@' only
     * sets the error; otherwise the request starts with loading on and no error.
     */
    method Submit() returns (requested: bool)
      requires Valid() && !loading && !success
      modifies this
      ensures Valid()
      ensures requested <==> LooksLikeEmail(old(email))
      ensures !requested ==> error == Some(InvalidAddress) && !loading
      ensures requested ==> loading && error == None
      ensures email == old(email) && success == old(success) && status == old(status)
    {
      if !LooksLikeEmail(email) {
        error := Some(InvalidAddress);
        return false;
      }
      loading := true;
      error := None;
      return true;
    }

    /**
     * The request settles: an ok answer whose body parses wait-lists the visitor
     * (whatever the level was), shows success and clears the address; anything else
     * shows the fixed error and changes nothing else. Loading ends either way.
     */
    method Settle(outcome: FetchOutcome)
      requires Valid() && loading
      modifies this
      ensures Valid() && !loading
      ensures outcome == Answer(true, true) ==>
        status == Waitlist && success && email == [] && error == None
      ensures outcome != Answer(true, true) ==>
        error == Some(SomethingWentWrong) && status == old(status) && success == old(success) && email == old(email)
    {
      if outcome.NetworkError? || !outcome.ok || !outcome.bodyParses {
        error := Some(SomethingWentWrong);
      } else {
        status := Waitlist;
        success := true;
        email := [];
      }
      loading := false;
    }
  }

  /** Every address the server accepts passes the client's check, so the client never blocks a valid one. */
  lemma ServerAcceptedLooksLikeEmail(email: string)
    requires Validators.ValidateEmail(email).0
    ensures LooksLikeEmail(email)
  {
    var a, d := Validators.AcceptedShape(email);
    assert Validators.Core(email)[a] == '@';
    assert Validators.Core(email) <= email;
  }

  /** The client's check is weaker: "a@b" passes it and the server refuses it. */
  lemma ClientCheckIsWeaker()
    ensures LooksLikeEmail("a@b") && !Validators.ValidateEmail("a@b").0
  {
    assert "a@b"[1] == '@';
    Validators.ValidateEmailCorrect("a@b");
  }
}
