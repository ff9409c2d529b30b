/** The `User` record of the models package: its pre-save password hashing
    hook, its normalisation of a freshly received record, and its
    validation of the credentials. The password hash, the e-mail format
    check and the clock are outside the model and arrive as parameters.
 */
module Models {
  import opened Text
  import opened Html

  /** Go's `uint32`, the type of the primary key. */
  newtype uint32 = x: int | 0 <= x < 0x1_0000_0000

  /** One reading of the clock (`time.Now()`). */
  datatype Instant = Instant(unixNano: int)

  /** Go's `error`: `nil` (Pass) or an error value (Fail). */
  datatype Outcome<E> = Pass | Fail(error: E)

  /** The three errors `Validate` can report. */
  datatype ValidationError = PasswordRequired | EmailRequired | EmailInvalid
  {
    /** The message the error carries. */
    function Message(): string {
      match this
      case PasswordRequired => "Senha obrigat\U{F3}ria"
      case EmailRequired => "Email obrigat\U{F3}rio"
      case EmailInvalid => "Email inv\U{E1}lido"
    }
  }

  /** The error value the hashing primitive returns. */
  datatype HashFailure = HashFailure(message: string)

  /** What one call of the hashing primitive yields on a password: the
      digest, already read as a string, or its error. */
  datatype HashOutcome = Hashed(digest: string) | HashFailed(failure: HashFailure)

  class User {
    var id: uint32
    var firstName: string
    var lastName: string
    var email: string
    var password: string
    var role: string
    var photo: string
    var active: bool
    var createdAt: Instant
    var updatedAt: Instant

    /** A record with the given field values, as a composite literal builds it. */
    constructor (id: uint32, firstName: string, lastName: string, email: string,
                 password: string, role: string, photo: string, active: bool,
                 createdAt: Instant, updatedAt: Instant)
      ensures this.id == id && this.firstName == firstName && this.lastName == lastName
      ensures this.email == email && this.password == password && this.role == role
      ensures this.photo == photo && this.active == active
      ensures this.createdAt == createdAt && this.updatedAt == updatedAt
    {
      this.id := id;
      this.firstName, this.lastName := firstName, lastName;
      this.email, this.password := email, password;
      this.role, this.photo, this.active := role, photo, active;
      this.createdAt, this.updatedAt := createdAt, updatedAt;
    }

    /** Replaces the password by its hash; when hashing fails, returns the
        error and leaves the record as it was. `hash` stands for the one
        call of the hashing primitive this hook makes. */
    method BeforeSave(hash: string -> HashOutcome) returns (err: Outcome<HashFailure>)
      modifies this`password
      ensures hash(old(password)).Hashed? ==>
                err == Pass && password == hash(old(password)).digest
      ensures hash(old(password)).HashFailed? ==>
                err == Fail(hash(old(password)).failure) && password == old(password)
      ensures id == old(id) && firstName == old(firstName) && lastName == old(lastName)
      ensures email == old(email) && role == old(role) && photo == old(photo)
      ensures active == old(active) && createdAt == old(createdAt) && updatedAt == old(updatedAt)
    {
      var hashed := hash(password);
      if hashed.HashFailed? {
        return Fail(hashed.failure);
      }
      password := hashed.digest;
      return Pass;
    }

    /** Normalises a received record: clears the key so that the store
        assigns one, trims and HTML-escapes the e-mail address and stamps
        both timestamps from two separate readings of the clock. */
    method Prepare(createdNow: Instant, updatedNow: Instant)
      modifies this`id, this`email, this`createdAt, this`updatedAt
      ensures id == 0
      ensures email == Escape(TrimSpace(old(email)))
      ensures createdAt == createdNow && updatedAt == updatedNow
      ensures firstName == old(firstName) && lastName == old(lastName)
      ensures password == old(password) && role == old(role)
      ensures photo == old(photo) && active == old(active)
    {
      var normalised := Escape(TrimSpace(email));
      id, email, createdAt, updatedAt := 0, normalised, createdNow, updatedNow;
    }

    /** Checks the credentials: password present, then e-mail present, then
        e-mail well formed, reporting the first that fails. The action is
        lower-cased and selects one of four arms, which all apply the same
        checks. `isEmailFormat` is the external e-mail format check. */
    function Validate(action: string, isEmailFormat: string -> bool): (r: Outcome<ValidationError>)
      reads this
      ensures r == Pass <==> password != "" && email != "" && isEmailFormat(email)
      ensures password == "" ==> r == Fail(PasswordRequired)
      ensures password != "" && email == "" ==> r == Fail(EmailRequired)
      ensures password != "" && email != "" && !isEmailFormat(email) ==> r == Fail(EmailInvalid)
    {
      var selector := ToLower(action);
      if selector == "create" then
        if password == "" then Fail(PasswordRequired)
        else if email == "" then Fail(EmailRequired)
        else if !isEmailFormat(email) then Fail(EmailInvalid)
        else Pass
      else if selector == "update" then
        if password == "" then Fail(PasswordRequired)
        else if email == "" then Fail(EmailRequired)
        else if !isEmailFormat(email) then Fail(EmailInvalid)
        else Pass
      else if selector == "login" then
        if password == "" then Fail(PasswordRequired)
        else if email == "" then Fail(EmailRequired)
        else if !isEmailFormat(email) then Fail(EmailInvalid)
        else Pass
      else
        if password == "" then Fail(PasswordRequired)
        else if email == "" then Fail(EmailRequired)
        else if !isEmailFormat(email) then Fail(EmailInvalid)
        else Pass
    }
  }

  /** What `Prepare` makes of a received e-mail address: no white space at
      either end, no raw markup character, every `&` opening an entity, and
      the trimmed address recoverable by decoding. */
  lemma PreparedEmail(received: string)
    ensures NoSurroundingSpace(Escape(TrimSpace(received)))
    ensures IsEscaped(Escape(TrimSpace(received)))
    ensures Unescape(Escape(TrimSpace(received))) == TrimSpace(received)
  {
    var trimmed := TrimSpace(received);
    EscapeKeepsEnds(trimmed);
    EscapeIsEscaped(trimmed);
    UnescapeEscape(trimmed);
  }

  /** An address that is already trimmed and holds none of the five
      characters `Escape` rewrites comes out of `Prepare` unchanged. */
  lemma NormalEmailIsKept(received: string)
    requires NoSurroundingSpace(received)
    requires forall i :: 0 <= i < |received| ==> !IsSpecial(received[i])
    ensures Escape(TrimSpace(received)) == received
  {
    assert [] + received + [] == received;
    TrimSpaceUnique([], received, []);
    EscapeFixedPoint(received);
  }

  /** The action passed to `Validate` never changes its result. */
  lemma ValidateIgnoresAction(u: User, a: string, b: string, isEmailFormat: string -> bool)
    ensures u.Validate(a, isEmailFormat) == u.Validate(b, isEmailFormat)
  {
  }

  /** A record whose e-mail was blank before `Prepare` (empty or only white
      space) and whose password is present fails validation with
      "Email obrigatório", under every action and e-mail format check. */
  lemma BlankEmailIsRequiredAfterPrepare(u: User, received: string, action: string,
                                         isEmailFormat: string -> bool)
    requires AllSpace(received)
    requires u.email == Escape(TrimSpace(received)) && u.password != ""
    ensures u.Validate(action, isEmailFormat) == Fail(EmailRequired)
    ensures u.Validate(action, isEmailFormat).error.Message() == "Email obrigat\U{F3}rio"
  {
    TrimSpaceEmpty(received);
  }

  /** A record whose e-mail holds a non-space character before `Prepare` has
      a non-empty e-mail after it, so validation then depends on the format
      check alone. */
  lemma PresentEmailStaysPresentAfterPrepare(u: User, received: string, action: string,
                                             isEmailFormat: string -> bool)
    requires !AllSpace(received)
    requires u.email == Escape(TrimSpace(received)) && u.password != ""
    ensures u.Validate(action, isEmailFormat) ==
              if isEmailFormat(u.email) then Pass else Fail(EmailInvalid)
  {
    var t := TrimSpace(received);
    TrimSpaceEmpty(received);
    EscapeEmpty(t);
  }

  /** The create path on one concrete record: normalise, validate, hash. */
  method CreateScenario(hash: string -> HashOutcome, isEmailFormat: string -> bool, now: Instant)
    requires hash("secret123") == Hashed("$2a$10$digest")
    requires isEmailFormat("ada@example.com")
  {
    var u := new User(7, "Ada", "Lovelace", "ada@example.com", "secret123", "user", "", true,
                      Instant(0), Instant(0));
    NormalEmailIsKept(u.email);
    u.Prepare(now, now);
    assert u.id == 0 && u.email == "ada@example.com";
    var v := u.Validate("CREATE", isEmailFormat);
    assert v == Pass;
    var err := u.BeforeSave(hash);
    assert err == Pass && u.password == "$2a$10$digest" && u.firstName == "Ada";
  }
}
