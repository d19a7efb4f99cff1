/** The attempt counter of the admin login form,
    components/admin/admin-login.tsx. The form keeps the typed password, a
    count of failed attempts and a loading flag; after three failures it
    refuses to submit until the page is reloaded. The login call's outcome is
    an input. */
module AdminLoginForm {
  import opened Wrappers

  /** Failures after which the form blocks itself. */
  const MAX_ATTEMPTS: nat := 3

  /** The notifications a submit raises, in order. */
  datatype Toast =
    | AccessBlocked
    | AccessGranted
    | AccessDenied(remaining: int)
    | AccountLocked

  datatype FormState = FormState(password: string, attempts: nat, isLoading: bool)

  const Initial := FormState("", 0, false)

  /** `isBlocked`: the form refuses further submissions once the attempt
      count reaches the limit; below it at least one attempt is left. */
  predicate IsBlocked(attempts: nat): (b: bool)
    ensures b <==> attempts >= MAX_ATTEMPTS
    ensures b ==> attempts > 0
    ensures !b ==> MAX_ATTEMPTS - attempts >= 1
  {
    attempts >= MAX_ATTEMPTS
  }

  /** The "N attempts remaining" line under the password field, if shown. */
  function RemainingHint(attempts: nat): (r: Option<int>)
    ensures r.Some? <==> 0 < attempts < MAX_ATTEMPTS
    ensures r.Some? ==> r.value == MAX_ATTEMPTS - attempts && 1 <= r.value < MAX_ATTEMPTS
  {
    if attempts > 0 && !IsBlocked(attempts) then Some(MAX_ATTEMPTS - attempts) else None
  }

  /** What a submit does once the login outcome is known: the new state,
      the toasts, and whether the login call was made. */
  datatype Submitted = Submitted(state: FormState, toasts: seq<Toast>, calledLogin: bool)

  /** `handleSubmit` with the login outcome awaited: a blocked form only
      warns; a success resets the counter; a failure counts one more,
      clears the password, says how many attempts are left and, at the
      limit, that the form is now locked. */
  function Submit(s: FormState, loginSucceeded: bool): (r: Submitted)
    ensures IsBlocked(s.attempts) ==> r == Submitted(s, [AccessBlocked], false)
    ensures !IsBlocked(s.attempts) ==> r.calledLogin && !r.state.isLoading
    ensures !IsBlocked(s.attempts) && loginSucceeded ==>
              r.state == s.(attempts := 0, isLoading := false) && r.toasts == [AccessGranted]
    ensures !IsBlocked(s.attempts) && !loginSucceeded ==>
              r.state == FormState("", s.attempts + 1, false) &&
              |r.toasts| >= 1 && r.toasts[0] == AccessDenied(MAX_ATTEMPTS - r.state.attempts) &&
              (r.toasts[1..] == [AccountLocked] <==> IsBlocked(r.state.attempts)) &&
              (r.toasts[1..] == [] <==> !IsBlocked(r.state.attempts))
  {
    if IsBlocked(s.attempts) then Submitted(s, [AccessBlocked], false)
    else if loginSucceeded then Submitted(s.(attempts := 0, isLoading := false), [AccessGranted], true)
    else
      var newAttempts := s.attempts + 1;
      Submitted(FormState("", newAttempts, false),
                [AccessDenied(MAX_ATTEMPTS - newAttempts)] + (if newAttempts >= MAX_ATTEMPTS then [AccountLocked] else []),
                true)
  }

  /** `handleSubmit` as written: `login` is asynchronous and its promise is
      not awaited, so the tested value is a promise, which is always truthy,
      and every unblocked submit takes the success branch whatever the
      server answered. */
  function SubmitAsWritten(s: FormState): (r: Submitted)
    ensures IsBlocked(s.attempts) ==> r == Submitted(s, [AccessBlocked], false)
    ensures !IsBlocked(s.attempts) ==> r.state.attempts == 0 && r.toasts == [AccessGranted]
  {
    if IsBlocked(s.attempts) then Submitted(s, [AccessBlocked], false)
    else Submitted(s.(attempts := 0, isLoading := false), [AccessGranted], true)
  }

  /** Submits in a row, one login outcome each. */
  function SubmitAll(s: FormState, outcomes: seq<bool>): FormState
    decreases |outcomes|
  {
    if outcomes == [] then s else SubmitAll(Submit(s, outcomes[0]).state, outcomes[1..])
  }

  function SubmitAllAsWritten(s: FormState, n: nat): FormState
    decreases n
  {
    if n == 0 then s else SubmitAllAsWritten(SubmitAsWritten(s).state, n - 1)
  }

  /** The counter never passes the limit: a blocked form stops counting. */
  lemma {:induction false} AttemptsBounded(s: FormState, outcomes: seq<bool>)
    requires s.attempts <= MAX_ATTEMPTS
    ensures SubmitAll(s, outcomes).attempts <= MAX_ATTEMPTS
    decreases |outcomes|
  {
    if outcomes != [] {
      AttemptsBounded(Submit(s, outcomes[0]).state, outcomes[1..]);
    }
  }

  /** With the outcome awaited, three failed logins from a fresh form block
      it, and the next submit makes no login call. */
  lemma ThreeFailuresBlock(password: string)
    ensures var s := SubmitAll(FormState(password, 0, false), [false, false, false]);
      s == FormState("", MAX_ATTEMPTS, false) && IsBlocked(s.attempts) &&
      forall ok :: !Submit(s, ok).calledLogin
  {
    var s0 := FormState(password, 0, false);
    var s1 := Submit(s0, false).state;
    var s2 := Submit(s1, false).state;
    var s3 := Submit(s2, false).state;
    assert [false, false, false][1..] == [false, false];
    assert [false, false][1..] == [false];
    assert SubmitAll(s2, [false]) == s3 by {
      assert [false][1..] == [];
    }
  }

  /** As written, no sequence of submits ever blocks the form, and a
      rejected password is never cleared or counted. */
  lemma {:induction false} AsWrittenNeverBlocks(s: FormState, n: nat)
    requires s.attempts == 0
    ensures SubmitAllAsWritten(s, n).attempts == 0
    ensures !IsBlocked(SubmitAllAsWritten(s, n).attempts)
    decreases n
  {
    if n > 0 {
      AsWrittenNeverBlocks(SubmitAsWritten(s).state, n - 1);
    }
  }

  /** The discrepancy on one input: a fresh form whose login is rejected
      counts one failure when the outcome is awaited and none as written. */
  lemma AsWrittenDiffersOnRejection(password: string)
    requires password != ""
    ensures Submit(FormState(password, 0, false), false).state == FormState("", 1, false)
    ensures SubmitAsWritten(FormState(password, 0, false)).state == FormState(password, 0, false)
  {
  }

  /** The form's state, updated in place by each submit. */
  class LoginForm {
    var password: string
    var attempts: nat
    var isLoading: bool

    function State(): FormState
      reads this
    {
      FormState(password, attempts, isLoading)
    }

    constructor ()
      ensures State() == Initial
    {
      password, attempts, isLoading := "", 0, false;
    }

    /** The password field's change handler. */
    method SetPassword(value: string)
      modifies this
      ensures State() == old(State()).(password := value)
    {
      password := value;
    }

    /** `handleSubmit`, with the login outcome awaited. */
    method HandleSubmit(loginSucceeded: bool) returns (toasts: seq<Toast>, calledLogin: bool)
      modifies this
      ensures Submitted(State(), toasts, calledLogin) == Submit(old(State()), loginSucceeded)
    {
      if IsBlocked(attempts) {
        return [AccessBlocked], false;
      }
      isLoading := true;
      calledLogin := true;
      if loginSucceeded {
        toasts := [AccessGranted];
        attempts := 0;
      } else {
        var newAttempts := attempts + 1;
        attempts := newAttempts;
        toasts := [AccessDenied(MAX_ATTEMPTS - newAttempts)];
        password := "";
        if newAttempts >= MAX_ATTEMPTS {
          toasts := toasts + [AccountLocked];
        }
      }
      isLoading := false;
    }
  }
}
