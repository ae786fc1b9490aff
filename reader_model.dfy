/**
 * The Reader model's validations: the shared serial-number rule, an email
 * that is present, unique and well formed, and a present full name. The
 * email format is `URI::MailTo::EMAIL_REGEXP`, a library pattern, passed in
 * as the predicate `isEmail`. The `dependent: :destroy` cascade is carried
 * out by `Store.Library.DeregisterReader`.
 */
module ReaderModel {
  import opened Wrappers
  import opened Text
  import opened Schema
  import opened SerialNumber
  import opened LibraryResult

  const InvalidEmail := "is not a valid email address"

  /** Some reader other than `self` already holds this serial number. */
  predicate ReaderSerialTaken(readers: Table<ReaderAttrs>, serial: string, self: Option<Id>) {
    exists k :: 0 <= k < |readers| && readers[k].attrs.serialNumber == serial && (self.None? || readers[k].id != self.value)
  }

  /** Some reader other than `self` already holds this email. */
  predicate EmailTaken(readers: Table<ReaderAttrs>, email: string, self: Option<Id>) {
    exists k :: 0 <= k < |readers| && readers[k].attrs.email == email && (self.None? || readers[k].id != self.value)
  }

  /** The messages on `email`: presence, uniqueness, then format. */
  function EmailMessages(email: string, taken: bool, isEmail: string -> bool): (m: seq<string>)
    ensures m == [] <==> !Blank(email) && !taken && isEmail(email)
    ensures CantBeBlank in m <==> Blank(email)
    ensures AlreadyTaken in m <==> taken
    ensures InvalidEmail in m <==> !isEmail(email)
    ensures |m| <= 3
  {
    (if Blank(email) then [CantBeBlank] else [])
    + (if taken then [AlreadyTaken] else [])
    + (if !isEmail(email) then [InvalidEmail] else [])
  }

  /** `errors.to_hash` after `valid?` on a reader with attributes `a`. */
  function ReaderErrors(a: ReaderAttrs, serialTaken: bool, emailTaken: bool, isEmail: string -> bool): (e: FieldErrors)
    ensures e == map[] <==> && ValidSerialNumber(a.serialNumber) && !serialTaken
                            && !Blank(a.email) && !emailTaken && isEmail(a.email)
                            && !Blank(a.fullName)
    ensures "serial_number" in e <==> !ValidSerialNumber(a.serialNumber) || serialTaken
    ensures "email" in e <==> Blank(a.email) || emailTaken || !isEmail(a.email)
    ensures "full_name" in e <==> Blank(a.fullName)
    ensures e.Keys <= {"serial_number", "email", "full_name"}
    ensures "serial_number" in e ==> e["serial_number"] == SerialNumberMessages(a.serialNumber, serialTaken)
    ensures "email" in e ==> e["email"] == EmailMessages(a.email, emailTaken, isEmail)
    ensures "full_name" in e ==> e["full_name"] == [CantBeBlank]
  {
    var serial := SerialNumberMessages(a.serialNumber, serialTaken);
    var email := EmailMessages(a.email, emailTaken, isEmail);
    var e0: FieldErrors := if serial == [] then map[] else map["serial_number" := serial];
    var e1 := if email == [] then e0 else e0["email" := email];
    assert "serial_number" in e1 <==> serial != [];
    assert "email" in e1 <==> email != [];
    var e := AddErrorIf(e1, Blank(a.fullName), "full_name", CantBeBlank);
    assert e == map[] <==> e.Keys == {} by {
      if e.Keys == {} { assert e == map[]; }
    }
    e
  }
}
