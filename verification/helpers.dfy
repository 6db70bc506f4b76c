/** The pure parts of the shared test utilities: test-user generation, the
    retry-with-backoff control rule, the currency-stripping step, the e-mail
    shape check and the screenshot file name. The clock and the fake-data
    generator are parameters: a millisecond timestamp and a `FakeProfile`. */
module Helpers {
  import opened Text

  // ---------------------------------------------------------------------
  // Test users

  /** The registration data of one test user. A field the original object
      lacks (`undefined`) is represented by "", which it equals in every
      truthiness test the page objects make. */
  datatype UserRecord = UserRecord(
    firstName: string,
    lastName: string,
    address: string,
    city: string,
    state: string,
    zipCode: string,
    phone: string,
    ssn: string,
    username: string,
    password: string)

  /** The values the fake-data generator draws for one user. */
  datatype FakeProfile = FakeProfile(
    firstName: string,
    lastName: string,
    address: string,
    city: string,
    state: string,
    zipCode: string,
    phone: string,
    ssn: string)

  /** Shape `^i\d+vupra$` of a generated user name. */
  predicate UsernameShape(u: string) {
    |u| >= 7 && u[0] == 'i' && u[|u| - 5..] == "vupra" && AllDigits(u[1..|u| - 5])
  }

  /** Shape `^T\d+!$` of a generated password. */
  predicate PasswordShape(p: string) {
    |p| >= 3 && p[0] == 'T' && p[|p| - 1] == '!' && AllDigits(p[1..|p| - 1])
  }

  /** The timestamp embedded in a generated user name. */
  function UsernameTimestamp(u: string): nat
    requires UsernameShape(u)
  {
    ParseDecimal(u[1..|u| - 5])
  }

  /** The timestamp embedded in a generated password. */
  function PasswordTimestamp(p: string): nat
    requires PasswordShape(p)
  {
    ParseDecimal(p[1..|p| - 1])
  }

  /** User name `i<timestamp>vupra`: it has the expected shape and the
      timestamp can be read back from it. */
  function MakeUsername(timestamp: nat): (u: string)
    ensures UsernameShape(u)
    ensures UsernameTimestamp(u) == timestamp
  {
    var d := Decimal(timestamp);
    var u := "i" + d + "vupra";
    assert u[1..|u| - 5] == d;
    assert u[|u| - 5..] == "vupra";
    ParseDecimalInvertsDecimal(timestamp);
    u
  }

  /** Password `T<timestamp>!`: it has the expected shape and the
      timestamp can be read back from it. */
  function MakePassword(timestamp: nat): (p: string)
    ensures PasswordShape(p)
    ensures PasswordTimestamp(p) == timestamp
  {
    var d := Decimal(timestamp);
    var p := "T" + d + "!";
    assert p[1..|p| - 1] == d;
    ParseDecimalInvertsDecimal(timestamp);
    p
  }

  /** `generateUserData`: random personal fields, credentials from the clock. */
  function GenerateUserData(fake: FakeProfile, timestamp: nat): (u: UserRecord)
    ensures UsernameShape(u.username) && UsernameTimestamp(u.username) == timestamp
    ensures PasswordShape(u.password) && PasswordTimestamp(u.password) == timestamp
    ensures u.firstName == fake.firstName && u.lastName == fake.lastName
    ensures u.address == fake.address && u.city == fake.city && u.state == fake.state
    ensures u.zipCode == fake.zipCode && u.phone == fake.phone && u.ssn == fake.ssn
  {
    UserRecord(fake.firstName, fake.lastName, fake.address, fake.city, fake.state,
               fake.zipCode, fake.phone, fake.ssn,
               MakeUsername(timestamp), MakePassword(timestamp))
  }

  /** Users generated at different milliseconds get different user names
      and different passwords; within one millisecond they collide. */
  lemma DistinctTimestampsDistinctCredentials(f1: FakeProfile, t1: nat, f2: FakeProfile, t2: nat)
    ensures GenerateUserData(f1, t1).username == GenerateUserData(f2, t2).username <==> t1 == t2
    ensures GenerateUserData(f1, t1).password == GenerateUserData(f2, t2).password <==> t1 == t2
  {
  }

  /** `generateUserDataWithUsername`: a generated user whose user name is
      replaced by the given one; nothing else differs. */
  function GenerateUserDataWithUsername(fake: FakeProfile, timestamp: nat, username: string): (u: UserRecord)
    ensures u.username == username
    ensures u.(username := GenerateUserData(fake, timestamp).username) == GenerateUserData(fake, timestamp)
    ensures PasswordShape(u.password) && PasswordTimestamp(u.password) == timestamp
  {
    GenerateUserData(fake, timestamp).(username := username)
  }

  /** `generateInvalidUserData`: names and credentials are empty, the
      address and contact fields are still drawn from the fake generator. */
  function GenerateInvalidUserData(fake: FakeProfile): (u: UserRecord)
    ensures u.firstName == [] && u.lastName == [] && u.username == [] && u.password == []
    ensures u.address == fake.address && u.city == fake.city && u.state == fake.state
    ensures u.zipCode == fake.zipCode && u.phone == fake.phone && u.ssn == fake.ssn
  {
    UserRecord("", "", fake.address, fake.city, fake.state, fake.zipCode, fake.phone, fake.ssn, "", "")
  }

  // ---------------------------------------------------------------------
  // Retry with exponential backoff

  /** What one call of the retried operation did. */
  datatype Attempt<+T, +E> = Returned(value: T) | Threw(error: E)

  /** How `retryWithBackoff` settles: with a value, by re-throwing, or with
      `undefined` when it never called the operation. */
  datatype Settled<+T, +E> = Resolved(value: T) | Rejected(error: E) | Undefined

  /** The observable run of `retryWithBackoff`: how it settled, how many
      times it called the operation, and the delays it requested from the
      timer (the values it logs), in order. */
  datatype RetryRun<+T, +E> = RetryRun(settled: Settled<T, E>, calls: nat, delays: seq<int>)

  const DefaultMaxRetries: int := 3
  const DefaultBaseDelay: int := 1000

  function Pow2(n: nat): (p: nat)
    ensures p >= 1
  {
    if n == 0 then 1 else 2 * Pow2(n - 1)
  }

  /** The wait after failed attempt `i` (counted from 0). */
  function BackoffDelay(baseDelay: int, i: nat): int {
    baseDelay * Pow2(i)
  }

  /** The waits of a run that failed `n` times before its last attempt. */
  predicate IsBackoffSchedule(delays: seq<int>, baseDelay: int, n: nat) {
    |delays| == n && forall k :: 0 <= k < n ==> delays[k] == BackoffDelay(baseDelay, k)
  }

  /** The loop of `retryWithBackoff` from iteration `i` on. */
  function RetryFrom<T, E>(fn: nat -> Attempt<T, E>, i: nat, maxRetries: int, baseDelay: int): (r: RetryRun<T, E>)
    requires i < maxRetries
    ensures i < r.calls <= maxRetries
    ensures |r.delays| == r.calls - 1 - i
    ensures forall k :: 0 <= k < |r.delays| ==> r.delays[k] == BackoffDelay(baseDelay, i + k)
    ensures forall k :: i <= k < r.calls - 1 ==> fn(k).Threw?
    ensures r.settled.Resolved? <==> fn(r.calls - 1).Returned?
    ensures r.settled.Resolved? ==> r.settled.value == fn(r.calls - 1).value
    ensures r.settled.Rejected? ==> r.calls == maxRetries && r.settled.error == fn(r.calls - 1).error
    ensures !r.settled.Undefined?
    decreases maxRetries - i
  {
    match fn(i)
    case Returned(v) => RetryRun(Resolved(v), i + 1, [])
    case Threw(e) =>
      if i == maxRetries - 1 then RetryRun(Rejected(e), i + 1, [])
      else
        var rest := RetryFrom(fn, i + 1, maxRetries, baseDelay);
        rest.(delays := [BackoffDelay(baseDelay, i)] + rest.delays)
  }

  /** `retryWithBackoff(fn, maxRetries, baseDelay)`, with `fn(i)` the outcome
      of the i-th call (from 0). It calls at most `maxRetries` times, stops
      at the first call that returns and yields that value, re-throws the
      last error when every call threw, requests a wait of `baseDelay * 2^i`
      after failed call `i` but none after the last call, and settles with `undefined`
      without calling at all when `maxRetries <= 0`. */
  function RetryWithBackoff<T, E>(fn: nat -> Attempt<T, E>, maxRetries: int, baseDelay: int): (r: RetryRun<T, E>)
    ensures maxRetries <= 0 ==> r == RetryRun(Undefined, 0, [])
    ensures maxRetries > 0 ==> 1 <= r.calls <= maxRetries
    ensures maxRetries > 0 ==> IsBackoffSchedule(r.delays, baseDelay, r.calls - 1)
    ensures forall k :: 0 <= k < r.calls - 1 ==> fn(k).Threw?
    ensures r.settled.Resolved? <==> r.calls > 0 && fn(r.calls - 1).Returned?
    ensures r.settled.Resolved? ==> r.settled.value == fn(r.calls - 1).value
    ensures r.settled.Rejected? <==> r.calls > 0 && fn(r.calls - 1).Threw?
    ensures r.settled.Rejected? ==> r.calls == maxRetries && r.settled.error == fn(r.calls - 1).error
  {
    if maxRetries <= 0 then RetryRun(Undefined, 0, [])
    else RetryFrom(fn, 0, maxRetries, baseDelay)
  }

  /** When call `k` is the first to return, the run resolves with its value
      after exactly `k + 1` calls, provided `k` is within the budget. */
  lemma RetryReturnsFirstSuccess<T, E>(fn: nat -> Attempt<T, E>, maxRetries: int, baseDelay: int, k: nat)
    requires k < maxRetries
    requires fn(k).Returned?
    requires forall j :: 0 <= j < k ==> fn(j).Threw?
    ensures RetryWithBackoff(fn, maxRetries, baseDelay).settled == Resolved(fn(k).value)
    ensures RetryWithBackoff(fn, maxRetries, baseDelay).calls == k + 1
  {
  }

  function Sum(xs: seq<int>): int {
    if xs == [] then 0 else Sum(xs[..|xs| - 1]) + xs[|xs| - 1]
  }

  /** The waits of a backoff schedule of `n` delays add up to
      `baseDelay * (2^n - 1)`. */
  lemma {:induction false} BackoffScheduleTotal(delays: seq<int>, baseDelay: int, n: nat)
    requires IsBackoffSchedule(delays, baseDelay, n)
    ensures Sum(delays) == baseDelay * (Pow2(n) - 1)
  {
    if n > 0 {
      var front := delays[..n - 1];
      assert IsBackoffSchedule(front, baseDelay, n - 1);
      BackoffScheduleTotal(front, baseDelay, n - 1);
      calc {
        Sum(delays);
        Sum(front) + delays[n - 1];
        baseDelay * (Pow2(n - 1) - 1) + baseDelay * Pow2(n - 1);
        baseDelay * (Pow2(n) - 1);
      }
    }
  }

  /** With the default arguments and an operation that always throws, the
      helper calls three times, waits 1000 ms then 2000 ms, and re-throws
      the third error. */
  lemma RetryDefaultsExhausted<E>(err: nat -> E)
    ensures var r := RetryWithBackoff<int, E>((i: nat) => Threw(err(i)), DefaultMaxRetries, DefaultBaseDelay);
      r == RetryRun(Rejected(err(2)), 3, [1000, 2000])
  {
    var fn: nat -> Attempt<int, E> := (i: nat) => Threw(err(i));
    var r := RetryWithBackoff(fn, DefaultMaxRetries, DefaultBaseDelay);
    assert IsBackoffSchedule(r.delays, 1000, 2);
    assert r.delays[0] == 1000 && r.delays[1] == 2000 by {
      assert Pow2(1) == 2;
    }
  }

  // ---------------------------------------------------------------------
  // Currency stripping

  /** The first step of `formatCurrency`: `amount.replace(/[$,]/g, '')`. */
  function StripCurrencySymbols(s: string): (r: string)
    ensures |r| <= |s|
    ensures forall k :: 0 <= k < |r| ==> r[k] != '$' && r[k] != ','
    ensures forall c :: c != '$' && c != ',' ==> multiset(r)[c] == multiset(s)[c]
  {
    if s == [] then []
    else
      var rest := StripCurrencySymbols(s[1..]);
      assert s == [s[0]] + s[1..];
      if s[0] == '$' || s[0] == ',' then rest else [s[0]] + rest
  }

  /** Stripping works character by character and keeps order: stripping a
      concatenation is concatenating the stripped parts. */
  lemma {:induction false} StripDistributes(a: string, b: string)
    ensures StripCurrencySymbols(a + b) == StripCurrencySymbols(a) + StripCurrencySymbols(b)
  {
    if a != [] {
      assert (a + b)[0] == a[0];
      assert (a + b)[1..] == a[1..] + b;
      StripDistributes(a[1..], b);
    } else {
      assert a + b == b;
    }
  }

  /** A string with no `$` and no `,` is left unchanged. */
  lemma {:induction false} StripKeepsPlain(s: string)
    requires forall k :: 0 <= k < |s| ==> s[k] != '$' && s[k] != ','
    ensures StripCurrencySymbols(s) == s
  {
    if s != [] {
      StripKeepsPlain(s[1..]);
    }
  }

  /** Stripping twice is stripping once. */
  lemma StripIdempotent(s: string)
    ensures StripCurrencySymbols(StripCurrencySymbols(s)) == StripCurrencySymbols(s)
  {
    StripKeepsPlain(StripCurrencySymbols(s));
  }

  // ---------------------------------------------------------------------
  // E-mail shape

  /** A character of the class `[^\s@]`. */
  predicate Plain(c: char) {
    !IsSpace(c) && c != '@'
  }

  predicate AllPlain(s: string) {
    forall k :: 0 <= k < |s| ==> Plain(s[k])
  }

  /** `isValidEmail`: the test of `^[^\s@]+@[^\s@]+\.[^\s@]+$`, i.e. an `@`
      at `i` and a `.` at `j` splitting the string into three non-empty runs
      of characters that are neither whitespace nor `@`. */
  predicate IsValidEmail(s: string) {
    exists i, j :: 0 < i && i + 1 < j && j + 1 < |s| && s[i] == '@' && s[j] == '.'
      && AllPlain(s[..i]) && AllPlain(s[i + 1..j]) && AllPlain(s[j + 1..])
  }

  function Count(s: string, c: char): nat {
    if s == [] then 0 else (if s[0] == c then 1 else 0) + Count(s[1..], c)
  }

  lemma {:induction false} CountAppend(a: string, b: string, c: char)
    ensures Count(a + b, c) == Count(a, c) + Count(b, c)
  {
    if a != [] {
      assert (a + b)[0] == a[0];
      assert (a + b)[1..] == a[1..] + b;
      CountAppend(a[1..], b, c);
    } else {
      assert a + b == b;
    }
  }

  lemma {:induction false} CountZero(s: string, c: char)
    ensures Count(s, c) == 0 <==> forall k :: 0 <= k < |s| ==> s[k] != c
  {
    if s != [] {
      CountZero(s[1..], c);
      assert forall k :: 1 <= k < |s| ==> s[k] == s[1..][k - 1];
    }
  }

  /** The domain part has a `.` that is neither its first nor its last
      character. */
  predicate HasInnerDot(d: string) {
    exists k :: 0 < k < |d| - 1 && d[k] == '.'
  }

  /** The same language described clause by clause: no whitespace, exactly
      one `@` with something before it, and an inner `.` after it. */
  predicate EmailShape(s: string) {
    (forall k :: 0 <= k < |s| ==> !IsSpace(s[k]))
    && Count(s, '@') == 1
    && exists i :: 0 < i < |s| && s[i] == '@' && HasInnerDot(s[i + 1..])
  }

  lemma SplitCount(s: string, i: int)
    requires 0 <= i < |s|
    ensures Count(s, '@') == Count(s[..i], '@') + Count([s[i]], '@') + Count(s[i + 1..], '@')
  {
    assert s == s[..i] + [s[i]] + s[i + 1..];
    CountAppend(s[..i] + [s[i]], s[i + 1..], '@');
    CountAppend(s[..i], [s[i]], '@');
  }

  /** A slice is plain exactly when the characters it covers are. */
  lemma PlainSlice(s: string, lo: int, hi: int)
    requires 0 <= lo <= hi <= |s|
    ensures AllPlain(s[lo..hi]) <==> forall k :: lo <= k < hi ==> Plain(s[k])
  {
    assert forall k :: lo <= k < hi ==> s[lo..hi][k - lo] == s[k];
  }

  /** Every string the regular expression accepts has the shape. */
  lemma EmailAcceptedHasShape(s: string)
    requires IsValidEmail(s)
    ensures EmailShape(s)
  {
    var i, j :| 0 < i && i + 1 < j && j + 1 < |s| && s[i] == '@' && s[j] == '.'
      && AllPlain(s[..i]) && AllPlain(s[i + 1..j]) && AllPlain(s[j + 1..]);
    PlainSlice(s, 0, i);
    PlainSlice(s, i + 1, j);
    PlainSlice(s, j + 1, |s|);
    assert forall k :: 0 <= k < |s| && k != i && k != j ==> Plain(s[k]);
    PlainSlice(s, i + 1, |s|);
    SplitCount(s, i);
    CountZero(s[..i], '@');
    CountZero(s[i + 1..], '@');
    assert s[i + 1..][j - i - 1] == '.';
  }

  /** Every string of the shape is accepted by the regular expression. */
  lemma EmailShapeIsAccepted(s: string)
    requires EmailShape(s)
    ensures IsValidEmail(s)
  {
    var i :| 0 < i < |s| && s[i] == '@' && HasInnerDot(s[i + 1..]);
    var k :| 0 < k < |s[i + 1..]| - 1 && s[i + 1..][k] == '.';
    var j := i + 1 + k;
    SplitCount(s, i);
    CountZero(s[..i], '@');
    CountZero(s[i + 1..], '@');
    assert forall m :: i < m < |s| ==> s[m] == s[i + 1..][m - i - 1];
    assert Count([s[i]], '@') == 1;
    assert forall m :: 0 <= m < i ==> s[m] == s[..i][m];
    assert forall m :: 0 <= m < |s| && m != i ==> Plain(s[m]);
    PlainSlice(s, 0, i);
    PlainSlice(s, i + 1, j);
    PlainSlice(s, j + 1, |s|);
    assert s[j] == '.';
    assert 0 < i && i + 1 < j && j + 1 < |s| && s[i] == '@' && s[j] == '.'
      && AllPlain(s[..i]) && AllPlain(s[i + 1..j]) && AllPlain(s[j + 1..]);
  }

  /** The regular expression accepts exactly the strings of `EmailShape`. */
  lemma EmailAcceptsIff(s: string)
    ensures IsValidEmail(s) <==> EmailShape(s)
  {
    if IsValidEmail(s) {
      EmailAcceptedHasShape(s);
    }
    if EmailShape(s) {
      EmailShapeIsAccepted(s);
    }
  }

  // ---------------------------------------------------------------------
  // Screenshot file names

  /** `toISOString().replace(/[:.]/g, '-')`. */
  function SanitizeTimestamp(iso: string): (r: string)
    ensures |r| == |iso|
    ensures forall k :: 0 <= k < |r| ==> r[k] != ':' && r[k] != '.'
    ensures forall k :: 0 <= k < |r| && iso[k] != ':' && iso[k] != '.' ==> r[k] == iso[k]
    ensures forall k :: 0 <= k < |r| && (iso[k] == ':' || iso[k] == '.') ==> r[k] == '-'
  {
    if iso == [] then []
    else [if iso[0] == ':' || iso[0] == '.' then '-' else iso[0]] + SanitizeTimestamp(iso[1..])
  }

  /** The path `takeScreenshot` writes: `screenshots/<name>-<sanitized>.png`. */
  function ScreenshotPath(name: string, iso: string): (p: string)
    ensures |p| == |name| + |iso| + 17
    ensures p[..12] == "screenshots/" && p[|p| - 4..] == ".png"
    ensures p[12..12 + |name|] == name && p[12 + |name|] == '-'
    ensures p[13 + |name|..|p| - 4] == SanitizeTimestamp(iso)
  {
    var p := "screenshots/" + name + "-" + SanitizeTimestamp(iso) + ".png";
    assert p[..12] == "screenshots/";
    assert p[12..12 + |name|] == name;
    assert p[13 + |name|..|p| - 4] == SanitizeTimestamp(iso);
    p
  }

  /** The layout `YYYY-MM-DDTHH:mm:ss.sssZ` of `Date.prototype.toISOString`
      for years 0 to 9999: `:` at 13 and 16, `.` at 19, and neither
      anywhere else. */
  predicate IsoShape(s: string) {
    |s| == 24 && s[13] == ':' && s[16] == ':' && s[19] == '.'
    && forall k :: 0 <= k < 24 && k != 13 && k != 16 && k != 19 ==> s[k] != ':' && s[k] != '.'
  }

  /** Sanitizing loses nothing on ISO timestamps: distinct instants give
      distinct screenshot paths for the same name. */
  lemma ScreenshotPathInjective(name: string, a: string, b: string)
    requires IsoShape(a) && IsoShape(b)
    requires ScreenshotPath(name, a) == ScreenshotPath(name, b)
    ensures a == b
  {
    var sa, sb := SanitizeTimestamp(a), SanitizeTimestamp(b);
    assert sa == sb;
    forall k | 0 <= k < 24
      ensures a[k] == b[k]
    {
      assert sa[k] == sb[k];
    }
  }
}
