/**
 * The additional e-mail addresses of users: at most five per user and no
 * address twice for the same user. `store` checks the input, then the cap,
 * then the duplicate, and only then appends an unlocked entry.
 */
module UserEmails {
  import opened Wrappers
  import opened Values
  import Validation

  /** One row of the `user_emails` table. */
  datatype UserEmail = UserEmail(id: nat, userId: nat, email: string, isLocked: bool)

  /** The answer of `store`: the created entry (201), or a refusal with status 422 and its message. */
  datatype StoreResponse = Created(entry: UserEmail) | Refused(status: nat, error: string)

  const MaxEmailsPerUser: nat := 5

  const RequiredMessage := "The email field is required."
  const EmailMessage := "The email field must be a valid email address."
  const CapMessage := "Maximum 5 emails per user"
  const DuplicateMessage := "Email already exists for this user"

  /** `$user->userEmails()->count()`: the entries of the user. */
  function CountFor(rows: seq<UserEmail>, user: nat): (n: nat)
    ensures n <= |rows|
  {
    if rows == [] then 0
    else CountFor(rows[..|rows| - 1], user) + (if rows[|rows| - 1].userId == user then 1 else 0)
  }

  /** `->where('email', $email)->exists()` among the entries of the user. */
  predicate HasEmail(rows: seq<UserEmail>, user: nat, email: string) {
    exists i :: 0 <= i < |rows| && rows[i].userId == user && rows[i].email == email
  }

  /** The table's invariant: no user above the cap, no address twice for one user. */
  predicate ValidRows(rows: seq<UserEmail>) {
    (forall i :: 0 <= i < |rows| ==> CountFor(rows, rows[i].userId) <= MaxEmailsPerUser)
    && (forall i, j :: 0 <= i < j < |rows| && rows[i].userId == rows[j].userId ==> rows[i].email != rows[j].email)
  }

  /**
   * Why `store` refuses, if it does: the `required` and `email` rules first
   * (`isEmailAddress` is the `email` rule's verdict on a string), then the
   * cap, then the duplicate.
   */
  function Refusal(rows: seq<UserEmail>, user: nat, email: Value, isEmailAddress: string -> bool)
    : (r: Option<string>)
    ensures r.None? <==>
              Validation.IsFilled(email) && email.Str? && isEmailAddress(email.s)
              && CountFor(rows, user) < MaxEmailsPerUser && !HasEmail(rows, user, email.s)
    ensures (Validation.IsFilled(email) && email.Str? && isEmailAddress(email.s)
             && CountFor(rows, user) >= MaxEmailsPerUser) ==> r == Some(CapMessage)
  {
    if !Validation.IsFilled(email) then Some(RequiredMessage)
    else if !email.Str? || !isEmailAddress(email.s) then Some(EmailMessage)
    else if CountFor(rows, user) >= MaxEmailsPerUser then Some(CapMessage)
    else if HasEmail(rows, user, email.s) then Some(DuplicateMessage)
    else None
  }

  /** Appending a row adds one to its user's count and nothing to any other user's. */
  lemma CountForAppend(rows: seq<UserEmail>, row: UserEmail, user: nat)
    ensures CountFor(rows + [row], user) == CountFor(rows, user) + (if row.userId == user then 1 else 0)
  {
    assert (rows + [row])[..|rows|] == rows;
  }

  /** An entry that `store` accepts keeps the table valid. */
  lemma {:induction false} AcceptedKeepsValid(rows: seq<UserEmail>, row: UserEmail)
    requires ValidRows(rows)
    requires CountFor(rows, row.userId) < MaxEmailsPerUser
    requires !HasEmail(rows, row.userId, row.email)
    ensures ValidRows(rows + [row])
  {
    var next := rows + [row];
    forall i | 0 <= i < |next|
      ensures CountFor(next, next[i].userId) <= MaxEmailsPerUser
    {
      CountForAppend(rows, row, next[i].userId);
      if i < |rows| {
        assert next[i] == rows[i];
      }
    }
    forall i, j | 0 <= i < j < |next| && next[i].userId == next[j].userId
      ensures next[i].email != next[j].email
    {
      if j < |rows| {
        assert next[i] == rows[i] && next[j] == rows[j];
      } else {
        assert next[i] == rows[i];
      }
    }
  }

  /** The `user_emails` table. */
  class EmailTable {
    var rows: seq<UserEmail>
    var nextId: nat

    predicate Valid()
      reads this
    {
      ValidRows(rows) && forall i :: 0 <= i < |rows| ==> rows[i].id < nextId
    }

    constructor ()
      ensures rows == [] && Valid()
    {
      rows := [];
      nextId := 1;
    }

    /** `index`: the user's entries, in table order. */
    function EmailsOf(user: nat): (r: seq<UserEmail>)
      reads this
      ensures |r| == CountFor(rows, user)
      ensures forall e :: e in r <==> e in rows && e.userId == user
    {
      Select(rows, user)
    }

    /**
     * `store`: refuses with 422 and leaves the table as it is when `Refusal`
     * gives a reason; otherwise appends one unlocked entry for the user and
     * answers 201 with it.
     */
    method Store(user: nat, email: Value, isEmailAddress: string -> bool) returns (response: StoreResponse)
      requires Valid()
      modifies this
      ensures Valid()
      ensures var refusal := Refusal(old(rows), user, email, isEmailAddress);
        if refusal.Some? then
          response == Refused(422, refusal.value) && rows == old(rows) && nextId == old(nextId)
        else
          response.Created? && response.entry == UserEmail(old(nextId), user, email.s, false)
          && rows == old(rows) + [response.entry] && nextId == old(nextId) + 1
    {
      var refusal := Refusal(rows, user, email, isEmailAddress);
      if refusal.Some? {
        return Refused(422, refusal.value);
      }
      var entry := UserEmail(nextId, user, email.s, false);
      AcceptedKeepsValid(rows, entry);
      rows := rows + [entry];
      nextId := nextId + 1;
      response := Created(entry);
    }
  }

  /** The entries of one user, in table order. */
  function Select(rows: seq<UserEmail>, user: nat): (r: seq<UserEmail>)
    ensures |r| == CountFor(rows, user)
    ensures forall e :: e in r <==> e in rows && e.userId == user
  {
    if rows == [] then []
    else
      var init := rows[..|rows| - 1];
      var last := rows[|rows| - 1];
      assert forall e :: e in rows <==> e in init || e == last;
      Select(init, user) + (if last.userId == user then [last] else [])
  }

  /** Under the invariant no user, with entries or without, has more than five entries. */
  lemma {:induction false} ValidBoundsEveryUser(rows: seq<UserEmail>, user: nat)
    requires ValidRows(rows)
    ensures CountFor(rows, user) <= MaxEmailsPerUser
  {
    if CountFor(rows, user) > 0 {
      SomeEntryOfExists(rows, user);
      var i :| 0 <= i < |rows| && rows[i].userId == user;
    }
  }

  /** An index of an entry of a user whose count is positive. */
  lemma {:induction false} SomeEntryOfExists(rows: seq<UserEmail>, user: nat)
    requires CountFor(rows, user) > 0
    ensures exists i :: 0 <= i < |rows| && rows[i].userId == user
    decreases |rows|
  {
    var init := rows[..|rows| - 1];
    if rows[|rows| - 1].userId != user {
      SomeEntryOfExists(init, user);
      var i :| 0 <= i < |init| && init[i].userId == user;
      assert rows[i] == init[i];
    }
  }
}
