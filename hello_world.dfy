/**
 The five tasks of the `example_task_decorator_dag` workflow: extract a fixed set
 of users, transform each into a normalised record, validate the records by
 Python truthiness, load them with a summary, and notify. The dictionaries the
 tasks pass to one another are datatypes; wall-clock reads are parameters.
 */
module HelloWorld {
  import opened Wrappers
  import opened Text

  /** A raw user `{id, name, email}`. */
  datatype RawUser = RawUser(id: int, name: string, email: string)

  /** The extract output `{'users': [...]}`. */
  datatype RawData = RawData(users: seq<RawUser>)

  /** A transformed user `{user_id, full_name, email_domain, processed_at}`. */
  datatype TransformedUser = TransformedUser(userId: int, fullName: string, emailDomain: string, processedAt: string)

  /** The transform output `{'transformed_users': [...]}`. */
  datatype TransformedData = TransformedData(transformedUsers: seq<TransformedUser>)

  /** The `IndexError` raised by `split('@')[1]`, with the position of the offending user. */
  datatype TransformError = IndexError(position: nat)

  /** One entry of `validation_errors`, carrying what its message interpolates. */
  datatype ValidationError =
    | MissingRequiredFields(user: TransformedUser)
    | MissingEmailDomain(userId: int)

  /** The validate output `{total_records, valid_records, invalid_records, validation_errors}`. */
  datatype ValidationResults = ValidationResults(
    totalRecords: int,
    validRecords: int,
    invalidRecords: int,
    validationErrors: seq<ValidationError>)

  /** The load output `{records_processed, load_timestamp, status}`. */
  datatype LoadSummary = LoadSummary(recordsProcessed: int, loadTimestamp: string, status: string)

  // ---------------------------------------------------------------- extract

  /**
   The three hard-coded users. Each address is written as its local part followed
   by "@example.com"; the value is the same string literal.
   */
  function ExtractData(): (r: RawData)
    ensures |r.users| == 3
    ensures forall i :: 0 <= i < |r.users| ==> r.users[i].id == i + 1
    ensures forall i :: 0 <= i < |r.users| ==> '@' in r.users[i].email && r.users[i].name != ""
  {
    RawData([
      RawUser(1, "Alice", "alice" + "@example.com"),
      RawUser(2, "Bob", "bob" + "@example.com"),
      RawUser(3, "Charlie", "charlie" + "@example.com")
    ])
  }

  // -------------------------------------------------------------- transform

  /** `email.split('@')[1]`, or None where that index does not exist. */
  function EmailDomain(email: string): (d: Option<string>)
    ensures d.Some? <==> '@' in email
    ensures d.Some? ==> '@' !in d.value
  {
    var parts := Split(email, '@');
    SplitHasSecond(email, '@');
    SplitPiecesFree(email, '@');
    if |parts| >= 2 then Some(parts[1]) else None
  }

  /** The domain is the text after the first '@' and before the next '@', if any. */
  lemma EmailDomainBetweenAts(local: string, domain: string, rest: string)
    requires '@' !in local && '@' !in domain
    requires rest == [] || rest[0] == '@'
    ensures EmailDomain(local + "@" + domain + rest) == Some(domain)
  {
    assert local + "@" + domain + rest == local + ['@'] + (domain + rest);
    SplitFirst(local, domain + rest, '@');
    if rest == [] {
      assert domain + rest == domain;
      SplitNoSep(domain, '@');
    } else {
      assert domain + rest == domain + ['@'] + rest[1..];
      SplitFirst(domain, rest[1..], '@');
    }
  }

  /**
   The record built for one user with the clock reading `processedAt`; None where
   the source raises. Its fields are given in terms of the raw user.
   */
  function TransformUser(u: RawUser, processedAt: string): (t: Option<TransformedUser>)
    ensures t.Some? <==> '@' in u.email
    ensures t.Some? ==>
      && t.value.userId == u.id
      && |t.value.fullName| == |u.name|
      && (forall i :: 0 <= i < |u.name| ==> t.value.fullName[i] == UpperChar(u.name[i]))
      && Some(t.value.emailDomain) == EmailDomain(u.email)
      && '@' !in t.value.emailDomain
      && t.value.processedAt == processedAt
  {
    match EmailDomain(u.email)
    case None => None
    case Some(domain) => Some(TransformedUser(u.id, ToUpper(u.name), domain, processedAt))
  }

  /**
   `transform_data`: one record per user, in order, the i-th stamped with the
   i-th clock reading `clock(i)`; fails at the first user whose email has no '@'.
   */
  method TransformData(raw: RawData, clock: nat -> string) returns (r: Result<TransformedData, TransformError>)
    ensures r.Success? <==> forall i :: 0 <= i < |raw.users| ==> '@' in raw.users[i].email
    ensures r.Success? ==>
      && |r.value.transformedUsers| == |raw.users|
      && forall i :: 0 <= i < |raw.users| ==>
           TransformUser(raw.users[i], clock(i)) == Some(r.value.transformedUsers[i])
    ensures r.Failure? ==>
      && r.error.position < |raw.users|
      && '@' !in raw.users[r.error.position].email
      && forall j :: 0 <= j < r.error.position ==> '@' in raw.users[j].email
  {
    var transformedUsers: seq<TransformedUser> := [];
    var i := 0;
    while i < |raw.users|
      invariant 0 <= i <= |raw.users|
      invariant |transformedUsers| == i
      invariant forall j :: 0 <= j < i ==>
        '@' in raw.users[j].email && TransformUser(raw.users[j], clock(j)) == Some(transformedUsers[j])
    {
      var user := raw.users[i];
      var domain := EmailDomain(user.email);
      if domain.None? {
        return Failure(IndexError(i));
      }
      var transformedUser := TransformedUser(user.id, ToUpper(user.name), domain.value, clock(i));
      transformedUsers := transformedUsers + [transformedUser];
      i := i + 1;
    }
    return Success(TransformedData(transformedUsers));
  }

  // --------------------------------------------------------------- validate

  /** `not user.get('user_id') or not user.get('full_name')`: 0 and "" are falsy. */
  predicate MissingRequired(u: TransformedUser) {
    u.userId == 0 || u.fullName == ""
  }

  /** `not user.get('email_domain')`. */
  predicate MissingDomain(u: TransformedUser) {
    u.emailDomain == ""
  }

  /** The final value of the `is_valid` flag: neither check appended a message. */
  predicate IsValidRecord(u: TransformedUser) {
    !MissingRequired(u) && !MissingDomain(u)
  }

  /** The messages one record adds to `validation_errors`, in the order they are appended. */
  function RecordErrors(u: TransformedUser): (es: seq<ValidationError>)
    ensures es == [] <==> IsValidRecord(u)
    ensures |es| == (if MissingRequired(u) then 1 else 0) + (if MissingDomain(u) then 1 else 0)
    ensures MissingRequired(u) <==> MissingRequiredFields(u) in es
    ensures MissingDomain(u) <==> MissingEmailDomain(u.userId) in es
    ensures |es| == 2 ==> es[0].MissingRequiredFields? && es[1].MissingEmailDomain?
    ensures forall k :: 0 <= k < |es| ==>
      (es[k].MissingRequiredFields? ==> es[k].user == u && MissingRequired(u)) &&
      (es[k].MissingEmailDomain? ==> es[k].userId == u.userId && MissingDomain(u))
  {
    (if MissingRequired(u) then [MissingRequiredFields(u)] else [])
    + (if MissingDomain(u) then [MissingEmailDomain(u.userId)] else [])
  }

  /** Number of valid records, never more than there are records. */
  function CountValid(us: seq<TransformedUser>): (n: nat)
    ensures n <= |us|
  {
    if us == [] then 0
    else CountValid(us[..|us| - 1]) + (if IsValidRecord(us[|us| - 1]) then 1 else 0)
  }

  /** Number of invalid records; together with the valid ones they are all the records. */
  function CountInvalid(us: seq<TransformedUser>): (n: nat)
    ensures CountValid(us) + n == |us|
  {
    if us == [] then 0
    else CountInvalid(us[..|us| - 1]) + (if IsValidRecord(us[|us| - 1]) then 0 else 1)
  }

  /** All messages for `us`, record by record in input order. */
  function ErrorsOf(us: seq<TransformedUser>): seq<ValidationError> {
    if us == [] then [] else ErrorsOf(us[..|us| - 1]) + RecordErrors(us[|us| - 1])
  }

  /**
   `validate_data`: counts every record as valid or invalid and never drops
   one, appending the messages of each invalid record in order.
   */
  method ValidateData(data: TransformedData) returns (r: ValidationResults)
    ensures r.totalRecords == |data.transformedUsers|
    ensures r.validRecords == CountValid(data.transformedUsers)
    ensures r.invalidRecords == CountInvalid(data.transformedUsers)
    ensures r.validationErrors == ErrorsOf(data.transformedUsers)
    ensures r.validRecords + r.invalidRecords == r.totalRecords
  {
    var users := data.transformedUsers;
    r := ValidationResults(|users|, 0, 0, []);
    var i := 0;
    while i < |users|
      invariant 0 <= i <= |users|
      invariant r.totalRecords == |users|
      invariant r.validRecords == CountValid(users[..i])
      invariant r.invalidRecords == CountInvalid(users[..i])
      invariant r.validationErrors == ErrorsOf(users[..i])
    {
      var user := users[i];
      assert users[..i + 1][..i] == users[..i];
      var isValid := true;
      if user.userId == 0 || user.fullName == "" {
        r := r.(validationErrors := r.validationErrors + [MissingRequiredFields(user)]);
        isValid := false;
      }
      if user.emailDomain == "" {
        r := r.(validationErrors := r.validationErrors + [MissingEmailDomain(user.userId)]);
        isValid := false;
      }
      if isValid {
        r := r.(validRecords := r.validRecords + 1);
      } else {
        r := r.(invalidRecords := r.invalidRecords + 1);
      }
      i := i + 1;
    }
    assert users[..i] == users;
  }

  /** Each invalid record adds one or two messages and a valid one none. */
  lemma {:induction false} ErrorBounds(us: seq<TransformedUser>)
    ensures CountInvalid(us) <= |ErrorsOf(us)| <= 2 * CountInvalid(us)
    ensures ErrorsOf(us) == [] <==> CountInvalid(us) == 0
  {
    if us != [] {
      ErrorBounds(us[..|us| - 1]);
    }
  }

  /** Messages come in input order: those of a prefix precede those of what follows. */
  lemma {:induction false} ErrorsOfAppend(a: seq<TransformedUser>, b: seq<TransformedUser>)
    ensures ErrorsOf(a + b) == ErrorsOf(a) + ErrorsOf(b)
  {
    if b != [] {
      assert (a + b)[..|a + b| - 1] == a + b[..|b| - 1];
      ErrorsOfAppend(a, b[..|b| - 1]);
    } else {
      assert a + b == a;
    }
  }

  /** Every message points to an offending record of the input. */
  lemma {:induction false} ErrorsProvenance(us: seq<TransformedUser>)
    ensures forall k :: 0 <= k < |ErrorsOf(us)| && ErrorsOf(us)[k].MissingRequiredFields? ==>
      ErrorsOf(us)[k].user in us && MissingRequired(ErrorsOf(us)[k].user)
    ensures forall k :: 0 <= k < |ErrorsOf(us)| && ErrorsOf(us)[k].MissingEmailDomain? ==>
      exists u :: u in us && MissingDomain(u) && u.userId == ErrorsOf(us)[k].userId
  {
    if us != [] {
      var init, last := us[..|us| - 1], us[|us| - 1];
      ErrorsProvenance(init);
      assert forall u :: u in init ==> u in us;
      assert last in us;
      forall k | 0 <= k < |ErrorsOf(us)| && ErrorsOf(us)[k].MissingEmailDomain?
        ensures exists u :: u in us && MissingDomain(u) && u.userId == ErrorsOf(us)[k].userId
      {
        if k >= |ErrorsOf(init)| {
          assert ErrorsOf(us)[k] == RecordErrors(last)[k - |ErrorsOf(init)|];
        } else {
          assert ErrorsOf(us)[k] == ErrorsOf(init)[k];
        }
      }
    }
  }

  /** Every record that fails a check has that check's message in the list. */
  lemma {:induction false} ErrorsComplete(us: seq<TransformedUser>)
    ensures forall u :: u in us && MissingRequired(u) ==> MissingRequiredFields(u) in ErrorsOf(us)
    ensures forall u :: u in us && MissingDomain(u) ==> MissingEmailDomain(u.userId) in ErrorsOf(us)
  {
    if us != [] {
      var init, last := us[..|us| - 1], us[|us| - 1];
      ErrorsComplete(init);
      assert us == init + [last];
      assert forall u :: u in us ==> u in init || u == last;
    }
  }

  /** No record is invalid exactly when every record passes both checks. */
  lemma {:induction false} NoInvalidIffAllValid(us: seq<TransformedUser>)
    ensures CountInvalid(us) == 0 <==> forall i :: 0 <= i < |us| ==> IsValidRecord(us[i])
  {
    if us != [] {
      var init := us[..|us| - 1];
      NoInvalidIffAllValid(init);
      assert forall i :: 0 <= i < |init| ==> init[i] == us[i];
    }
  }

  /** When every record is valid, all are counted valid and no message is produced. */
  lemma AllValidResults(us: seq<TransformedUser>)
    requires forall i :: 0 <= i < |us| ==> IsValidRecord(us[i])
    ensures CountValid(us) == |us| && CountInvalid(us) == 0 && ErrorsOf(us) == []
  {
    NoInvalidIffAllValid(us);
    ErrorBounds(us);
  }

  /** A transformed record is valid exactly when its user has a non-zero id, a name and a non-empty domain. */
  lemma TransformedValidity(u: RawUser, processedAt: string)
    requires '@' in u.email
    ensures IsValidRecord(TransformUser(u, processedAt).value) <==>
      u.id != 0 && u.name != "" && EmailDomain(u.email).value != ""
  {
  }

  // ------------------------------------------------------------ load, notify

  /** `load_data`: every record is loaded and the status is "completed", whatever validation found. */
  function LoadData(data: TransformedData, validation: ValidationResults, loadTimestamp: string): (s: LoadSummary)
    ensures s.recordsProcessed == |data.transformedUsers|
    ensures s.status == "completed"
    ensures s.loadTimestamp == loadTimestamp
  {
    LoadSummary(|data.transformedUsers|, loadTimestamp, "completed")
  }

  /** `send_notification`: the message is only logged; the result is fixed. */
  function SendNotification(summary: LoadSummary, validation: ValidationResults): (msg: string)
    ensures msg == "Notification sent successfully"
  {
    "Notification sent successfully"
  }

  // ------------------------------------------------------------- sample run

  /** An address at example.com has the domain "example.com". */
  lemma ExampleDomain(local: string)
    requires '@' !in local
    ensures EmailDomain(local + "@example.com") == Some("example.com")
  {
    assert local + "@example.com" == local + "@" + "example.com" + "";
    EmailDomainBetweenAts(local, "example.com", "");
  }

  /** Every sample email splits into a local part and the domain "example.com". */
  lemma SampleDomains()
    ensures forall i :: 0 <= i < |ExtractData().users| ==>
      EmailDomain(ExtractData().users[i].email) == Some("example.com")
  {
    ExampleDomain("alice");
    ExampleDomain("bob");
    ExampleDomain("charlie");
  }

  /**
   The five tasks run on the built-in data: transformation succeeds, all three
   records are valid with no messages, three are loaded and the notification is sent.
   */
  method SampleDataRun(clock: nat -> string, loadTimestamp: string)
    returns (validation: ValidationResults, summary: LoadSummary, notification: string)
    ensures validation == ValidationResults(3, 3, 0, [])
    ensures summary == LoadSummary(3, loadTimestamp, "completed")
    ensures notification == "Notification sent successfully"
  {
    var raw := ExtractData();
    var transformed := TransformData(raw, clock);
    var data := transformed.value;
    var users := data.transformedUsers;
    SampleDomains();
    forall i | 0 <= i < |users| ensures IsValidRecord(users[i]) {
      TransformedValidity(raw.users[i], clock(i));
    }
    AllValidResults(users);
    validation := ValidateData(data);
    summary := LoadData(data, validation, loadTimestamp);
    notification := SendNotification(summary, validation);
  }
}
