/**
 * The signup gate (CustomSignupForm.clean_email) and the administrator's
 * whitelist upsert (manage_whitelisted_emails, POST).
 */
module Whitelist {
  import opened Models
  import opened Tables
  import opened Store
  import opened Wrappers

  const NotAllowedMessage: string :=
    "This email address is not allowed to register. Please contact the admin."

  /** Whether an active whitelist row holds exactly this email. */
  function ActiveListed(rows: seq<WhitelistedEmail>, email: string): (b: bool)
    ensures b <==> exists w :: w in rows && w.email == email && w.active
  {
    if rows == [] then false
    else if rows[0].email == email && rows[0].active then true
    else
      var b := ActiveListed(rows[1..], email);
      assert forall w :: w in rows ==> w == rows[0] || w in rows[1..];
      b
  }

  /**
   * clean_email: the email back, unchanged, when an active whitelist row has
   * exactly that email; otherwise the validation error. It only reads the rows.
   */
  function CleanEmail(rows: seq<WhitelistedEmail>, email: string): (r: Result<string, string>)
    ensures r.Success? <==> exists w :: w in rows && w.email == email && w.active
    ensures r.Success? ==> r.value == email
    ensures r.Failure? ==> r.error == NotAllowedMessage
  {
    if ActiveListed(rows, email) then Success(email) else Failure(NotAllowedMessage)
  }

  /**
   * After the administrator upserts (email, active), signup with that email
   * is allowed exactly when the last submitted flag was on, and the verdict
   * for every other email is unchanged.
   */
  lemma GateAfterUpsert(rows: seq<WhitelistedEmail>, email: string, active: bool, other: string)
    requires UniqueEmails(rows) && other != email
    ensures CleanEmail(UpsertEmail(rows, email, active), email).Success? == active
    ensures CleanEmail(UpsertEmail(rows, email, active), other) == CleanEmail(rows, other)
  {
    UpsertEmailUnique(rows, email, active);
    var r := UpsertEmail(rows, email, active);
    assert WhitelistedEmail(email, active) in r;
    if exists w :: w in rows && w.email == other && w.active {
      var w :| w in rows && w.email == other && w.active;
      assert w in r;
    }
  }

  /**
   * manage_whitelisted_emails on POST: the 'active' checkbox is on exactly
   * when it reads 'on'; a missing email field makes the insert fail on the
   * NOT NULL column and nothing is saved.
   */
  method ManageWhitelistPost(db: Database, emailField: Option<string>, activeField: Option<string>)
    returns (saved: bool)
    requires db.Valid()
    modifies db
    ensures db.Valid() && saved == emailField.Some?
    ensures saved ==> db.whitelist == UpsertEmail(old(db.whitelist), emailField.value, activeField == Some("on"))
    ensures !saved ==> db.whitelist == old(db.whitelist)
    ensures db.users == old(db.users) && db.goals == old(db.goals)
    ensures db.completions == old(db.completions) && db.challenges == old(db.challenges)
  {
    saved := emailField.Some?;
    if saved {
      db.UpsertWhitelisted(emailField.value, activeField == Some("on"));
    }
  }
}
