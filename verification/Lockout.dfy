/**
 The two failure counters of the admin panel: of MFA codes for one admin
 (admin-panel/internal/auth/mfa.go) and of passwords for one address
 (admin-panel/internal/web/handlers.go). Times are in seconds.
 */
module Lockout {
  import opened Common

  /** Times of attempts, earliest first. */
  ghost predicate InOrder(times: seq<int>) {
    forall i, j :: 0 <= i <= j < |times| ==> times[i] <= times[j]
  }

  // ---------------------------------------------------------------- MFA

  const MFA_MAX_ATTEMPTS := 5
  const MFA_LOCK_WINDOW := 900

  /** The two columns of admin_users. */
  datatype Mfa = Mfa(failedAttempts: nat, lockedUntil: Option<int>)

  predicate MfaLocked(m: Mfa, now: int) {
    m.lockedUntil.Some? && m.lockedUntil.value > now
  }

  /** The row after a failure: the fifth resets the count and starts the lock. */
  function RecordMfaFailure(m: Mfa, now: int): Mfa {
    if m.failedAttempts + 1 >= MFA_MAX_ATTEMPTS then Mfa(0, Some(now + MFA_LOCK_WINDOW))
    else Mfa(m.failedAttempts + 1, m.lockedUntil)
  }

  datatype MfaError = InvalidCredentials | TooManyAttempts

  /** The counters in admin_users, by admin. */
  class MfaStore {
    var admins: map<int, Mfa>

    constructor (admins: map<int, Mfa>)
      ensures this.admins == admins
    {
      this.admins := admins;
    }

    /** VerifyMFAChallenge as one atomic step; `valid` is what VerifyMFA finds, asked only when not locked. */
    method VerifyMfaChallenge(adminId: int, valid: bool, now: int) returns (r: Result<bool, MfaError>)
      modifies this
      ensures if adminId !in old(admins) then r == Err(InvalidCredentials) && admins == old(admins)
              else if MfaLocked(old(admins)[adminId], now) then r == Err(TooManyAttempts) && admins == old(admins)
              else r == Ok(valid) &&
                   admins == old(admins)[adminId := if valid then Mfa(0, None) else WrongCode(old(admins)[adminId], now)]
    {
      if adminId !in admins { return Err(InvalidCredentials); }
      if MfaLocked(admins[adminId], now) { return Err(TooManyAttempts); }
      if valid {
        admins := admins[adminId := Mfa(0, None)];
        return Ok(true);
      }
      RecordFailure(adminId, now);
      return Ok(false);
    }

    /** The UPDATE of recordMFAFailure, its right-hand sides taken from the old row. */
    method RecordFailure(adminId: int, now: int)
      modifies this
      ensures admins == if adminId in old(admins) then old(admins)[adminId := RecordMfaFailure(old(admins)[adminId], now)] else old(admins)
    {
      if adminId !in admins { return; }
      var m := admins[adminId];
      var full := m.failedAttempts + 1 >= MFA_MAX_ATTEMPTS;
      var attempts := if full then 0 else m.failedAttempts + 1;
      var until := if full then Some(now + MFA_LOCK_WINDOW) else m.lockedUntil;
      admins := admins[adminId := Mfa(attempts, until)];
    }
  }

  /** A challenge with a wrong code: evaluated, and counted, only when not locked. */
  function WrongCode(m: Mfa, now: int): Mfa {
    if MfaLocked(m, now) then m else RecordMfaFailure(m, now)
  }

  function MfaAfter(m: Mfa, times: seq<int>): Mfa {
    if times == [] then m else WrongCode(MfaAfter(m, times[..|times| - 1]), times[|times| - 1])
  }

  /** How many of a run of wrong codes were evaluated. */
  function MfaEvaluated(m: Mfa, times: seq<int>): nat {
    if times == [] then 0
    else
      var n := |times| - 1;
      MfaEvaluated(m, times[..n]) + (if MfaLocked(MfaAfter(m, times[..n]), times[n]) then 0 else 1)
  }

  lemma {:induction false} MfaCountStaysBelowMax(m: Mfa, times: seq<int>)
    requires m.failedAttempts < MFA_MAX_ATTEMPTS
    ensures MfaAfter(m, times).failedAttempts < MFA_MAX_ATTEMPTS
  {
    if times != [] { MfaCountStaysBelowMax(m, times[..|times| - 1]); }
  }

  lemma {:induction false} MfaWindow(m: Mfa, times: seq<int>, start: int)
    requires m.failedAttempts < MFA_MAX_ATTEMPTS
    requires forall i :: 0 <= i < |times| ==> start <= times[i] < start + MFA_LOCK_WINDOW
    ensures var after := MfaAfter(m, times);
            after.failedAttempts == m.failedAttempts + MfaEvaluated(m, times) < MFA_MAX_ATTEMPTS ||
            (MfaEvaluated(m, times) <= MFA_MAX_ATTEMPTS &&
             after.lockedUntil.Some? && after.lockedUntil.value >= start + MFA_LOCK_WINDOW)
  {
    if times != [] { MfaWindow(m, times[..|times| - 1], start); }
  }

  /** A run of wrong codes after any earlier ones: at most five are evaluated in any half-open window of 15 minutes. */
  lemma {:induction false} MfaFailuresBounded(m: Mfa, earlier: seq<int>, times: seq<int>, start: int)
    requires m.failedAttempts < MFA_MAX_ATTEMPTS
    requires forall i :: 0 <= i < |times| ==> start <= times[i] < start + 15 * 60
    ensures MfaEvaluated(MfaAfter(m, earlier), times) <= 5
  {
    MfaCountStaysBelowMax(m, earlier);
    MfaWindow(MfaAfter(m, earlier), times, start);
  }

  /** The window has to be half-open: a sixth wrong code is evaluated just when the lock ends. */
  lemma {:induction false} MfaBoundIsSharp(t: int)
    ensures MfaEvaluated(Mfa(0, None), [t, t, t, t, t]) == 5
    ensures MfaEvaluated(Mfa(0, None), [t, t, t, t, t, t + 15 * 60]) == 6
    ensures MfaEvaluated(Mfa(0, None), [t, t, t, t, t, t + 15 * 60 - 1]) == 5
  {
    var s0 := Mfa(0, None);
    assert [t][..0] == [] && [t, t][..1] == [t] && [t, t, t][..2] == [t, t] && [t, t, t, t][..3] == [t, t, t];
    assert MfaAfter(s0, []) == s0 && MfaEvaluated(s0, []) == 0;
    assert MfaAfter(s0, [t]) == Mfa(1, None) && MfaEvaluated(s0, [t]) == 1;
    assert MfaAfter(s0, [t, t]) == Mfa(2, None) && MfaEvaluated(s0, [t, t]) == 2;
    assert MfaAfter(s0, [t, t, t]) == Mfa(3, None) && MfaEvaluated(s0, [t, t, t]) == 3;
    assert MfaAfter(s0, [t, t, t, t]) == Mfa(4, None) && MfaEvaluated(s0, [t, t, t, t]) == 4;
    var five := [t, t, t, t, t];
    assert five[..4] == [t, t, t, t];
    assert MfaAfter(s0, five) == Mfa(0, Some(t + MFA_LOCK_WINDOW)) && MfaEvaluated(s0, five) == 5;
    assert [t, t, t, t, t, t + MFA_LOCK_WINDOW][..5] == five;
    assert [t, t, t, t, t, t + MFA_LOCK_WINDOW - 1][..5] == five;
  }

  // ---------------------------------------------------------------- logins

  const LOGIN_FAILURE_MAX := 10
  const LOGIN_FAILURE_WINDOW := 300
  const LOGIN_LOCKOUT_FOR := 900

  /** A loginFailureRecord; a lockUntil that was never set is None. */
  datatype Rec = Rec(count: nat, firstAt: int, lockUntil: Option<int>)

  predicate LoginLocked(r: Option<Rec>, now: int) {
    r.Some? && r.value.lockUntil.Some? && r.value.lockUntil.value > now
  }

  function FailedLogin(r: Option<Rec>, now: int): Rec {
    if r.None? || now - r.value.firstAt > LOGIN_FAILURE_WINDOW then Rec(1, now, None)
    else
      var count := r.value.count + 1;
      Rec(count, r.value.firstAt, if count >= LOGIN_FAILURE_MAX then Some(now + LOGIN_LOCKOUT_FOR) else r.value.lockUntil)
  }

  function Get(m: map<string, Rec>, ip: string): Option<Rec> {
    if ip in m then Some(m[ip]) else None
  }

  class LoginFailureCounter {
    var attempts: map<string, Rec>

    constructor ()
      ensures attempts == map[]
    {
      attempts := map[];
    }

    method IsLocked(ip: string, now: int) returns (locked: bool, retry: int)
      ensures locked == LoginLocked(Get(attempts, ip), now)
      ensures locked <==> ip in attempts && attempts[ip].lockUntil.Some? && now < attempts[ip].lockUntil.value
      ensures locked ==> retry > 0 && attempts[ip].lockUntil == Some(now + retry)
      ensures !locked ==> retry == 0
    {
      if ip !in attempts { return false, 0; }
      var rec := attempts[ip];
      if rec.lockUntil.Some? && rec.lockUntil.value > now { return true, rec.lockUntil.value - now; }
      return false, 0;
    }

    method RecordFailure(ip: string, now: int)
      modifies this
      ensures attempts == old(attempts)[ip := FailedLogin(Get(old(attempts), ip), now)]
    {
      if ip !in attempts || now - attempts[ip].firstAt > LOGIN_FAILURE_WINDOW {
        attempts := attempts[ip := Rec(1, now, None)];
        return;
      }
      var rec := attempts[ip];
      rec := rec.(count := rec.count + 1);
      if rec.count >= LOGIN_FAILURE_MAX {
        rec := rec.(lockUntil := Some(now + LOGIN_LOCKOUT_FOR));
      }
      attempts := attempts[ip := rec];
    }

    method RecordSuccess(ip: string)
      modifies this
      ensures attempts == old(attempts) - {ip}
    {
      attempts := attempts - {ip};
    }

    /** loginSubmit as one atomic step; `valid` is what Authenticate finds, asked only when not locked. */
    method LoginSubmit(ip: string, valid: bool, now: int) returns (evaluated: bool, ok: bool)
      modifies this
      ensures evaluated == !LoginLocked(Get(old(attempts), ip), now) && ok == (evaluated && valid)
      ensures !evaluated ==> attempts == old(attempts)
      ensures evaluated && valid ==> attempts == old(attempts) - {ip}
      ensures evaluated && !valid ==> attempts == old(attempts)[ip := WrongLogin(Get(old(attempts), ip), now).value]
    {
      var locked, retry := IsLocked(ip, now);
      if locked { return false, false; }
      if !valid {
        RecordFailure(ip, now);
        return true, false;
      }
      RecordSuccess(ip);
      return true, true;
    }
  }

  /** The record of one address after an attempt with a wrong password. */
  function WrongLogin(r: Option<Rec>, now: int): Option<Rec> {
    if LoginLocked(r, now) then r else Some(FailedLogin(r, now))
  }

  function LoginAfter(r: Option<Rec>, times: seq<int>): Option<Rec> {
    if times == [] then r else WrongLogin(LoginAfter(r, times[..|times| - 1]), times[|times| - 1])
  }

  /** How many of a run of wrong passwords were evaluated. */
  function LoginEvaluated(r: Option<Rec>, times: seq<int>): nat {
    if times == [] then 0
    else
      var n := |times| - 1;
      LoginEvaluated(r, times[..n]) + (if LoginLocked(LoginAfter(r, times[..n]), times[n]) then 0 else 1)
  }

  /** What every record a new counter comes to hold satisfies. */
  predicate Sound(r: Option<Rec>) {
    r.Some? ==>
      1 <= r.value.count <= LOGIN_FAILURE_MAX &&
      (r.value.lockUntil.Some? <==> r.value.count == LOGIN_FAILURE_MAX) &&
      (r.value.lockUntil.Some? ==> r.value.lockUntil.value >= r.value.firstAt + LOGIN_LOCKOUT_FOR)
  }

  lemma {:induction false} RecordsAreSound(r: Option<Rec>, times: seq<int>)
    requires Sound(r) && InOrder(times)
    requires r.Some? && times != [] ==> r.value.firstAt <= times[0]
    ensures Sound(LoginAfter(r, times))
    ensures LoginAfter(r, times).Some? && times != [] ==> LoginAfter(r, times).value.firstAt <= times[|times| - 1]
  {
    if times != [] {
      var n := |times| - 1;
      RecordsAreSound(r, times[..n]);
      if n > 0 { assert times[..n][n - 1] <= times[n] && times[..n][0] == times[0]; }
    }
  }

  /**
   Within a closed window the attempts evaluated so far either all went into the record that was
   there at its start, or at most eight of them did and the rest made up the next record, which
   outlives the window.
   */
  lemma {:induction false} LoginWindow(r: Option<Rec>, times: seq<int>, start: int)
    requires Sound(r) && InOrder(times)
    requires r.Some? && times != [] ==> r.value.firstAt <= times[0]
    requires forall i :: 0 <= i < |times| ==> start <= times[i] <= start + LOGIN_FAILURE_WINDOW
    ensures var after, n := LoginAfter(r, times), LoginEvaluated(r, times);
            (after == r && n == 0) ||
            (r.Some? && after.Some? && after.value.firstAt == r.value.firstAt && after.value.count == r.value.count + n &&
             (after.value.lockUntil.Some? ==> after.value.lockUntil.value >= start + LOGIN_LOCKOUT_FOR)) ||
            (after.Some? && after.value.firstAt >= start && n <= after.value.count + LOGIN_FAILURE_MAX - 2 &&
             (r.None? ==> n <= after.value.count) &&
             (after.value.lockUntil.Some? ==> after.value.lockUntil.value >= start + LOGIN_LOCKOUT_FOR))
  {
    if times != [] {
      var n := |times| - 1;
      LoginWindow(r, times[..n], start);
      RecordsAreSound(r, times[..n]);
      assert start <= times[n] <= start + LOGIN_FAILURE_WINDOW;
      if n > 0 { assert times[..n][n - 1] <= times[n] && times[..n][0] == times[0]; }
    }
  }

  /** A run of wrong passwords after any earlier ones: at most 18 are evaluated in any closed window of 300 seconds. */
  lemma {:induction false} LoginFailuresBounded(earlier: seq<int>, times: seq<int>, start: int)
    requires InOrder(earlier + times)
    requires forall i :: 0 <= i < |times| ==> start <= times[i] <= start + 300
    ensures LoginEvaluated(LoginAfter(None, earlier), times) <= 18
  {
    var all := earlier + times;
    assert InOrder(earlier) && InOrder(times) by {
      forall i, j | 0 <= i <= j < |earlier| ensures earlier[i] <= earlier[j] { assert all[i] <= all[j]; }
      forall i, j | 0 <= i <= j < |times| ensures times[i] <= times[j] {
        assert all[|earlier| + i] <= all[|earlier| + j];
      }
    }
    RecordsAreSound(None, earlier);
    var r := LoginAfter(None, earlier);
    if times != [] && earlier != [] { assert all[|earlier| - 1] <= all[|earlier|]; }
    LoginWindow(r, times, start);
    RecordsAreSound(r, times);
  }

  lemma {:induction false} LoginConcat(r: Option<Rec>, a: seq<int>, b: seq<int>)
    ensures LoginAfter(r, a + b) == LoginAfter(LoginAfter(r, a), b)
    ensures LoginEvaluated(r, a + b) == LoginEvaluated(r, a) + LoginEvaluated(LoginAfter(r, a), b)
  {
    if b == [] {
      assert a + b == a;
    } else {
      assert (a + b)[..|a + b| - 1] == a + b[..|b| - 1];
      LoginConcat(r, a, b[..|b| - 1]);
    }
  }

  function Repeat(t: int, n: nat): seq<int> {
    seq(n, i => t)
  }

  lemma {:induction false} LoginBurst(r: Rec, t: int, n: nat)
    requires r.lockUntil.None? && r.count + n <= LOGIN_FAILURE_MAX && r.firstAt <= t <= r.firstAt + LOGIN_FAILURE_WINDOW
    ensures LoginEvaluated(Some(r), Repeat(t, n)) == n
    ensures r.count + n < LOGIN_FAILURE_MAX ==> LoginAfter(Some(r), Repeat(t, n)) == Some(r.(count := r.count + n))
  {
    if n > 0 {
      assert Repeat(t, n)[..n - 1] == Repeat(t, n - 1);
      LoginBurst(r, t, n - 1);
    }
  }

  /** Eighteen is reached: one failure, eight more at the end of its record, ten on the next record a second later. */
  lemma {:induction false} LoginBoundIsSharp(t: int)
    ensures var times := Repeat(t + 300, 8) + Repeat(t + 301, 10);
            InOrder([t] + times) && LoginEvaluated(LoginAfter(None, [t]), times) == 18 &&
            forall i :: 0 <= i < |times| ==> t + 300 <= times[i] <= t + 600
  {
    var first := LoginAfter(None, [t]);
    assert [t][..0] == [] && LoginAfter(None, []) == None;
    assert first == Some(Rec(1, t, None));
    LoginBurst(first.value, t + 300, 8);
    var ninth := LoginAfter(first, Repeat(t + 300, 8));
    LoginConcat(first, Repeat(t + 300, 8), Repeat(t + 301, 10));
    var next := Rec(1, t + 301, None);
    assert Repeat(t + 301, 10) == [t + 301] + Repeat(t + 301, 9);
    assert [t + 301][..0] == [] && LoginAfter(ninth, []) == ninth;
    assert LoginAfter(ninth, [t + 301]) == Some(next) && LoginEvaluated(ninth, [t + 301]) == 1;
    LoginConcat(ninth, [t + 301], Repeat(t + 301, 9));
    LoginBurst(next, t + 301, 9);
  }

  /** The tenth failure within 300 seconds of the first locks the address for 15 minutes, to the second; the failures before it do not. */
  lemma {:induction false} TenthFailureLocks(r: Rec, t: int, now: int)
    requires r.lockUntil.None? && 1 <= r.count < 10 && r.firstAt <= t <= r.firstAt + 300
    ensures LoginLocked(LoginAfter(Some(r), [t]), now) <==> r.count == 9 && now < t + 15 * 60
  {
    assert [t][..0] == [] && LoginAfter(Some(r), []) == Some(r);
  }

  /** What an attempt with a wrong password makes of the records of all addresses. */
  function AfterAttempts(attempts: seq<(string, int)>): map<string, Rec> {
    if attempts == [] then map[]
    else
      var (ip, now) := attempts[|attempts| - 1];
      var m := AfterAttempts(attempts[..|attempts| - 1]);
      m[ip := WrongLogin(Get(m, ip), now).value]
  }

  function TimesOf(attempts: seq<(string, int)>, ip: string): seq<int> {
    if attempts == [] then []
    else
      TimesOf(attempts[..|attempts| - 1], ip) + (if attempts[|attempts| - 1].0 == ip then [attempts[|attempts| - 1].1] else [])
  }

  /** Addresses do not get into each other's way: the record of each is that of its own attempts. */
  lemma {:induction false} OwnAttemptsCount(attempts: seq<(string, int)>, ip: string)
    ensures var m, r := AfterAttempts(attempts), LoginAfter(None, TimesOf(attempts, ip));
            (ip in m <==> r.Some?) && (ip in m ==> r == Some(m[ip]))
  {
    if attempts != [] {
      var n := |attempts| - 1;
      OwnAttemptsCount(attempts[..n], ip);
      var own := TimesOf(attempts[..n], ip);
      if attempts[n].0 == ip {
        assert (own + [attempts[n].1])[..|own|] == own;
      } else {
        assert TimesOf(attempts, ip) == own + [] == own;
      }
    }
  }
}
