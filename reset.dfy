/** The confirmation dialog guarding the semester reset: the signed-in
    lecturer must type their own email and a password whose JavaScript
    length is at least six. */
module Reset {
  import opened Model
  import opened Text

  const INVALID_CREDENTIALS: string := "Invalid credentials. Access denied."

  const MIN_PASSWORD_LENGTH: nat := 6

  /** `email === user?.email && password.length >= 6`; with no user the left
      side compares against `undefined` and fails. `length` counts UTF-16
      code units. */
  predicate CredentialsValid(user: Option<User>, email: string, password: string)
    ensures CredentialsValid(user, email, password) ==> user.Some? && Utf16Length(password) >= MIN_PASSWORD_LENGTH
  {
    user.Some? && email == user.value.email && Utf16Length(password) >= MIN_PASSWORD_LENGTH
  }

  /** Without a user nothing is accepted, and a password shorter than six
      code units is refused whatever the email; a user's own email with six or
      more code units of password is accepted. In characters: fewer than three
      is always too short, six or more always long enough, and three to five
      pass only when enough of them lie outside the Basic Multilingual Plane. */
  lemma CredentialsCases(user: Option<User>, email: string, password: string)
    ensures user.None? ==> !CredentialsValid(user, email, password)
    ensures Utf16Length(password) < 6 ==> !CredentialsValid(user, email, password)
    ensures user.Some? && user.value.email != email ==> !CredentialsValid(user, email, password)
    ensures user.Some? && email == user.value.email && Utf16Length(password) >= 6
            ==> CredentialsValid(user, email, password)
    ensures |password| < 3 ==> !CredentialsValid(user, email, password)
    ensures user.Some? && email == user.value.email && |password| >= 6 ==> CredentialsValid(user, email, password)
  {
  }

  /** Three emoji make a password of length six: accepted. */
  lemma EmojiPasswordAccepted(user: User)
    ensures CredentialsValid(Some(user), user.email, "\U{1F600}\U{1F600}\U{1F600}")
  {
    Utf16LengthOfEmoji();
  }

  /** The dialog's fields. */
  class ResetDialog {
    var email: string
    var password: string
    var error: string

    constructor ()
      ensures email == "" && password == "" && error == ""
    {
      email, password, error := "", "", "";
    }

    /** `handleVerifyAndReset`; `confirmed` says whether `onConfirm` was
        called. A closed dialog renders nothing, so no handler can run. */
    method HandleVerifyAndReset(isOpen: bool, user: Option<User>) returns (confirmed: bool)
      modifies this
      ensures confirmed <==> isOpen && CredentialsValid(user, old(email), old(password))
      ensures !isOpen ==> email == old(email) && password == old(password) && error == old(error)
      ensures confirmed ==> email == "" && password == "" && error == ""
      ensures isOpen && !confirmed ==> error == INVALID_CREDENTIALS
                                       && email == old(email) && password == old(password)
    {
      if !isOpen {
        return false;
      }
      if CredentialsValid(user, email, password) {
        confirmed := true;
        email, password, error := "", "", "";
      } else {
        confirmed := false;
        error := INVALID_CREDENTIALS;
      }
    }
  }
}
