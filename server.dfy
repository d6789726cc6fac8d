/**
 * The request handling of server.js with HTTP, HTML templating and bcrypt
 * abstracted away: the `POST /register` decision chain over the shared store,
 * and the `GET /users` listing.
 */
module Server {
  import opened Wrappers
  import opened Store
  import opened Validation

  /** SALT_ROUNDS, the bcrypt cost factor handed to the hash. */
  const SaltRounds: nat := 10

  /**
   * bcrypt.hash(password, rounds): an opaque one-way hash that may fail
   * (None stands for a rejected promise).
   */
  type Hasher = (string, nat) -> Option<string>

  /** How a registration ends; each early return of the handler is one case. */
  datatype Outcome =
    | MissingField
    | InvalidEmailFormat
    | PasswordTooShort
    | EmailAlreadyRegistered
    | InternalError
    | Registered(user: User)

  /** The HTML reply reduced to its status code and whether it uses the `success` class. */
  datatype Reply = Reply(status: int, isSuccess: bool)

  /** The status code and message class that sendHtmlResponse is called with for each outcome. */
  function ReplyFor(o: Outcome): Reply
  {
    match o
    case MissingField => Reply(400, false)
    case InvalidEmailFormat => Reply(400, false)
    case PasswordTooShort => Reply(400, false)
    case EmailAlreadyRegistered => Reply(409, false)
    case InternalError => Reply(500, false)
    case Registered(_) => Reply(201, true)
  }

  /** `!field`: an absent body field or the empty string. */
  predicate Missing(field: Option<string>)
  {
    field.None? || field.value == ""
  }

  /** Both fields present and every validation passes: the handler reaches the duplicate check. */
  predicate PassesValidation(email: Option<string>, password: Option<string>)
  {
    && !Missing(email) && !Missing(password)
    && ValidateEmail(email.value) && ValidatePassword(password.value)
  }

  /**
   * The handler's decision for a store holding `records` and about to hand out
   * `nextId`: the checks in source order, then the hash, then create.
   */
  function Decide(email: Option<string>, password: Option<string>, records: seq<User>, nextId: nat,
                  hash: Hasher, now: Timestamp): Outcome
  {
    if Missing(email) || Missing(password) then MissingField
    else if !ValidateEmail(email.value) then InvalidEmailFormat
    else if !ValidatePassword(password.value) then PasswordTooShort
    else if FindFirst(records, email.value).Some? then EmailAlreadyRegistered
    else match hash(password.value, SaltRounds)
      case None => InternalError
      case Some(hashed) => Registered(User(nextId, email.value, hashed, now))
  }

  /** The store's records after an outcome: only a registration adds one. */
  function After(o: Outcome, records: seq<User>): seq<User>
  {
    if o.Registered? then records + [o.user] else records
  }

  /**
   * The status code is fixed by the first check that fails, in source order:
   * missing field, then email format, then password length (all 400), then an
   * already stored email (409), then the hash (500), else 201. Each rejection
   * names the first check that failed, all earlier checks having passed.
   */
  lemma StatusFollowsCheckOrder(email: Option<string>, password: Option<string>, records: seq<User>,
                                nextId: nat, hash: Hasher, now: Timestamp)
    ensures var r := ReplyFor(Decide(email, password, records, nextId, hash, now));
      && (r.status == 400 <==> !PassesValidation(email, password))
      && (r.status == 409 <==> PassesValidation(email, password) && !NoMatch(records, email.value))
      && (r.status == 500 <==>
            PassesValidation(email, password) && NoMatch(records, email.value)
            && hash(password.value, SaltRounds).None?)
      && (r.status == 201 <==>
            PassesValidation(email, password) && NoMatch(records, email.value)
            && hash(password.value, SaltRounds).Some?)
      && (r.isSuccess <==> r.status == 201)
    ensures var o := Decide(email, password, records, nextId, hash, now);
      && (o == MissingField <==> Missing(email) || Missing(password))
      && (o == InvalidEmailFormat <==>
            !Missing(email) && !Missing(password) && !ValidateEmail(email.value))
      && (o == PasswordTooShort <==>
            && !Missing(email) && !Missing(password) && ValidateEmail(email.value)
            && !ValidatePassword(password.value))
      && (o == EmailAlreadyRegistered <==>
            PassesValidation(email, password) && !NoMatch(records, email.value))
  {
    if PassesValidation(email, password) {
      FindFirstNone(records, email.value);
    }
  }

  /**
   * A registration succeeds exactly when every check passes, no record carries
   * the email and the hash succeeds; the new record holds the submitted email,
   * the hash's output in place of the password, the next id and the clock
   * reading.
   */
  lemma RegisteredRecord(email: Option<string>, password: Option<string>, records: seq<User>,
                         nextId: nat, hash: Hasher, now: Timestamp)
    ensures var o := Decide(email, password, records, nextId, hash, now);
      o.Registered? <==>
        && PassesValidation(email, password)
        && NoMatch(records, email.value)
        && hash(password.value, SaltRounds).Some?
    ensures var o := Decide(email, password, records, nextId, hash, now);
      o.Registered? ==>
        && o.user.id == nextId
        && o.user.email == email.value
        && o.user.password == hash(password.value, SaltRounds).value
        && o.user.createdAt == now
        && ValidateEmail(o.user.email)
  {
    if PassesValidation(email, password) {
      FindFirstNone(records, email.value);
    }
  }

  /** No two records share an email. */
  ghost predicate UniqueEmails(records: seq<User>)
  {
    forall i, j :: 0 <= i < j < |records| ==> records[i].email != records[j].email
  }

  /**
   * Registrations handled one after another keep emails unique: the uniqueness
   * of the data model is the handler's doing, not the store's.
   */
  lemma RegisterKeepsEmailsUnique(email: Option<string>, password: Option<string>, records: seq<User>,
                                  nextId: nat, hash: Hasher, now: Timestamp)
    requires UniqueEmails(records)
    ensures UniqueEmails(After(Decide(email, password, records, nextId, hash, now), records))
  {
    var o := Decide(email, password, records, nextId, hash, now);
    if o.Registered? {
      FindFirstNone(records, email.value);
      var rs := records + [o.user];
      forall i, j | 0 <= i < j < |rs|
        ensures rs[i].email != rs[j].email
      {
        if j == |records| {
          assert rs[i] == records[i];
        } else {
          assert rs[i] == records[i] && rs[j] == records[j];
        }
      }
    }
  }

  /**
   * The same email submitted twice in sequence: if the first is registered, the
   * second is rejected (409 whenever its password passes validation), and the
   * store then holds exactly one record with that email.
   */
  lemma SequentialDuplicate(email: string, password1: Option<string>, password2: Option<string>,
                            records: seq<User>, nextId: nat, hash: Hasher, now1: Timestamp, now2: Timestamp)
    requires Decide(Some(email), password1, records, nextId, hash, now1).Registered?
    ensures var first := Decide(Some(email), password1, records, nextId, hash, now1);
      var middle := After(first, records);
      var second := Decide(Some(email), password2, middle, nextId + 1, hash, now2);
      && !second.Registered?
      && (!Missing(password2) && ValidatePassword(password2.value) ==> ReplyFor(second).status == 409)
      && CountEmail(After(second, middle), email) == 1
  {
    var first := Decide(Some(email), password1, records, nextId, hash, now1);
    FindFirstNone(records, email);
    FindFirstAppend(records, first.user, email);
    CountEmailNoMatch(records, email);
    CountEmailAppend(records, first.user, email);
  }

  /**
   * POST /register: run the checks in order, returning early on the first that
   * fails; only when all pass and the hash succeeds is create called. The
   * outcome is the one Decide gives for the store as it was, and a rejected
   * submission leaves the store exactly as it was, counter included.
   */
  method Register(store: UserStore, email: Option<string>, password: Option<string>,
                  hash: Hasher, now: Timestamp) returns (outcome: Outcome, reply: Reply)
    requires store.Valid()
    modifies store
    ensures store.Valid()
    ensures outcome == Decide(email, password, old(store.Records()), old(store.currentId), hash, now)
    ensures reply == ReplyFor(outcome)
    ensures !outcome.Registered? ==> unchanged(store)
    ensures outcome.Registered? ==>
      && store.Records() == old(store.Records()) + [outcome.user]
      && store.currentId == old(store.currentId) + 1
  {
    if Missing(email) || Missing(password) {
      outcome := MissingField;
    } else if !ValidateEmail(email.value) {
      outcome := InvalidEmailFormat;
    } else if !ValidatePassword(password.value) {
      outcome := PasswordTooShort;
    } else {
      var existingUser := store.FindByEmail(email.value);
      if existingUser.Some? {
        outcome := EmailAlreadyRegistered;
      } else {
        var hashed := hash(password.value, SaltRounds);
        if hashed.None? {
          outcome := InternalError;
        } else {
          var user := store.Create(email.value, hashed.value, now);
          outcome := Registered(user);
        }
      }
    }
    reply := ReplyFor(outcome);
  }

  /**
   * The same valid email submitted twice to the live store: the second reply is
   * 409 and the store ends with exactly one record carrying that email.
   */
  method RegisterTwice(store: UserStore, email: string, password1: string, password2: string,
                       hash: Hasher, now1: Timestamp, now2: Timestamp)
    returns (first: Reply, second: Reply)
    requires store.Valid()
    requires ValidateEmail(email) && ValidatePassword(password1) && ValidatePassword(password2)
    requires NoMatch(store.Records(), email) && hash(password1, SaltRounds).Some?
    modifies store
    ensures store.Valid()
    ensures first.status == 201 && second.status == 409
    ensures CountEmail(store.Records(), email) == 1
    ensures store.Records() ==
      old(store.Records()) + [User(old(store.currentId), email, hash(password1, SaltRounds).value, now1)]
    ensures store.currentId == old(store.currentId) + 1
  {
    RegisteredRecord(Some(email), Some(password1), store.Records(), store.currentId, hash, now1);
    ghost var records := store.Records();
    ghost var nextId := store.currentId;
    var o1, o2;
    o1, first := Register(store, Some(email), Some(password1), hash, now1);
    o2, second := Register(store, Some(email), Some(password2), hash, now2);
    SequentialDuplicate(email, Some(password1), Some(password2), records, nextId, hash, now1, now2);
  }

  /** One entry of the `/users` listing: the record without its password field. */
  datatype PublicUser = PublicUser(id: nat, email: string, createdAt: Timestamp)

  /** The JSON body `{ success: true, users }` of `GET /users`. */
  datatype UsersBody = UsersBody(success: bool, users: seq<PublicUser>)

  /** `getAll().map(user => ({ id, email, createdAt }))`. */
  function ListUsers(records: seq<User>): seq<PublicUser>
  {
    if records == [] then []
    else [PublicUser(records[0].id, records[0].email, records[0].createdAt)] + ListUsers(records[1..])
  }

  /** The listing has one entry per record, in store order, carrying that record's id, email and creation time. */
  lemma {:induction false} ListUsersAt(records: seq<User>)
    ensures |ListUsers(records)| == |records|
    ensures forall i :: 0 <= i < |records| ==>
      ListUsers(records)[i] == PublicUser(records[i].id, records[i].email, records[i].createdAt)
  {
    if records != [] {
      ListUsersAt(records[1..]);
    }
  }

  /**
   * The listing never reveals a password hash: stores that differ only in the
   * password fields of their records list identically.
   */
  lemma {:induction false} ListUsersHidesPasswords(a: seq<User>, b: seq<User>)
    requires |a| == |b|
    requires forall i :: 0 <= i < |a| ==>
      a[i].id == b[i].id && a[i].email == b[i].email && a[i].createdAt == b[i].createdAt
    ensures ListUsers(a) == ListUsers(b)
  {
    if a != [] {
      ListUsersHidesPasswords(a[1..], b[1..]);
    }
  }

  /** GET /users: always 200 with `success: true` and the listing of every stored record. */
  method GetUsers(store: UserStore) returns (status: int, body: UsersBody)
    requires store.Valid()
    ensures status == 200 && body.success
    ensures |body.users| == |store.Records()| == store.currentId - 1
    ensures forall i :: 0 <= i < |body.users| ==>
      body.users[i] == PublicUser(store.Records()[i].id, store.Records()[i].email, store.Records()[i].createdAt)
  {
    var all := store.GetAll();
    ListUsersAt(all);
    status, body := 200, UsersBody(true, ListUsers(all));
  }
}
