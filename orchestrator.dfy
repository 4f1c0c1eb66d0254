/** The decisions of the end-to-end test script: where to start, whether
    to register a fresh user, which credentials to log in with, how a
    fresh user is generated from the clock, and the terminal rule of the
    find-transactions step. Environment variables are read once into a
    `TestEnv`; `Date.now()` is a parameter. */
module Orchestrator {
  import opened Text
  import opened Retry

  /** The environment variables the test reads. */
  datatype TestEnv = TestEnv(
    seedUsername: Option<string>, seedPassword: Option<string>,
    skipRegistration: Option<string>, baseUrl: Option<string>)

  const DefaultBaseUrl := "https://parabank.parasoft.com/parabank"

  // ---------------------------------------------------------------------
  // The start page.

  /** `base.endsWith('/index.htm') ? base : `${base.replace(/\/+$/,'')}/index.htm``. */
  function IndexUrl(base: string): (url: string)
    ensures EndsWith(url, "/index.htm")
    ensures EndsWith(base, "/index.htm") ==> url == base
    ensures !EndsWith(base, "/index.htm") ==>
              var stem := url[..|url| - 10];
              && stem <= base
              && (stem == [] || stem[|stem| - 1] != '/')
              && forall i :: |stem| <= i < |base| ==> base[i] == '/'
  {
    if EndsWith(base, "/index.htm") then base
    else TrimTrailingSlashes(base) + "/index.htm"
  }

  /** Normalising twice is normalising once. */
  lemma IndexUrlIdempotent(base: string)
    ensures IndexUrl(IndexUrl(base)) == IndexUrl(base)
  {
  }

  /** A trailing slash on a base that does not name the page makes no difference. */
  lemma IndexUrlIgnoresTrailingSlash(base: string)
    requires !EndsWith(base, "/index.htm")
    ensures IndexUrl(base + "/") == IndexUrl(base)
  {
    assert (base + "/")[..|base|] == base;
  }

  /** A base naming the page but with a trailing slash gets the page appended again. */
  lemma IndexUrlPageWithTrailingSlash(base: string)
    requires EndsWith(base, "/index.htm")
    ensures IndexUrl(base + "/") == base + "/index.htm"
  {
    var b := base + "/";
    assert !EndsWith(b, "/index.htm") by {
      assert b[|b| - 1] == '/' && "/index.htm"[9] == 'm';
    }
    assert base[|base| - 1] == 'm' by {
      assert base[|base| - 10..][9] == "/index.htm"[9];
    }
    assert b[..|b| - 1] == base;
    assert TrimTrailingSlashes(b) == base;
  }

  /** The page the test opens first (`BASE_URL` or the public demo site). */
  function StartUrl(env: TestEnv): (url: string)
    ensures EndsWith(url, "/index.htm")
    ensures !Truthy(env.baseUrl) ==> url == "https://parabank.parasoft.com/parabank/index.htm"
    ensures Truthy(env.baseUrl) ==> url == IndexUrl(env.baseUrl.value)
  {
    IndexUrl(OrDefault(env.baseUrl, DefaultBaseUrl))
  }

  // ---------------------------------------------------------------------
  // Registration and login credentials.

  /** `SEED_USERNAME || ''` and `SEED_PASSWORD || ''`. */
  function SeededCredentials(env: TestEnv): (creds: (string, string))
    ensures creds.0 != "" <==> Truthy(env.seedUsername)
    ensures creds.1 != "" <==> Truthy(env.seedPassword)
    ensures creds.0 != "" ==> creds.0 == env.seedUsername.value
    ensures creds.1 != "" ==> creds.1 == env.seedPassword.value
  {
    (OrDefault(env.seedUsername, ""), OrDefault(env.seedPassword, ""))
  }

  /** `!skipRegistration && (!seededUser || !seededPass)`: registration runs
      unless it is skipped or both seeded credentials are non-empty. */
  predicate ShouldRegister(env: TestEnv)
    ensures ShouldRegister(env) <==>
              !Truthy(env.skipRegistration) && !(Truthy(env.seedUsername) && Truthy(env.seedPassword))
  {
    var creds := SeededCredentials(env);
    !Truthy(env.skipRegistration) && (creds.0 == "" || creds.1 == "")
  }

  /** Registration happens exactly when it is not skipped and some seeded
      credential is missing or empty. */
  lemma ShouldRegisterIff(env: TestEnv)
    ensures ShouldRegister(env) <==>
              !Truthy(env.skipRegistration) && (!Truthy(env.seedUsername) || !Truthy(env.seedPassword))
  {
  }

  datatype User = User(
    firstName: string, lastName: string, address: string, city: string,
    state: string, zip: string, phone: string, ssn: string,
    username: string, password: string)

  /** `genRandomUser()` at time `t` (milliseconds since the epoch): a fixed
      profile whose username carries the whole timestamp and whose last name
      and password share its last digits. */
  function GenRandomUser(t: nat): (u: User)
    ensures |u.username| >= 5 && 7 <= |u.lastName| <= 10 && 10 <= |u.password| <= 13
    ensures u.username[..4] == "user" && u.username[4..] == NatToString(t)
    ensures u.lastName[..6] == "Tester" && u.password[..9] == "P@ssw0rd-"
    ensures u.lastName[6..] == u.password[9..] == TimestampSuffix(t)
    ensures forall i :: 9 <= i < |u.password| ==> IsDigit(u.password[i])
  {
    var digits := NatToString(t);
    var suffix := TimestampSuffix(t);
    assert ("user" + digits)[4..] == digits;
    assert ("Tester" + suffix)[6..] == suffix;
    assert ("P@ssw0rd-" + suffix)[9..] == suffix;
    User("Auto", "Tester" + suffix, "1 Test St", "Testville", "TS", "12345",
         "555-0100", "000-00-0000", "user" + digits, "P@ssw0rd-" + suffix)
  }

  /** The username is "user" followed by the decimal timestamp, which it
      reads back as. */
  lemma {:induction false} GeneratedUsername(t: nat)
    ensures GenRandomUser(t).username[..4] == "user"
    ensures GenRandomUser(t).username[4..] == NatToString(t)
    ensures ParseDecimal(GenRandomUser(t).username[4..]) == t
  {
    assert GenRandomUser(t).username[4..] == NatToString(t);
    ParseNatToString(t);
  }

  /** Users generated at distinct instants have distinct usernames. */
  lemma {:induction false} GeneratedUsernamesDistinct(s: nat, t: nat)
    requires s != t
    ensures GenRandomUser(s).username != GenRandomUser(t).username
  {
    PrefixedNatToStringInjective("user", s, t);
  }

  /** The last four digits of `t` (all of them when there are fewer), as
      `t.toString().slice(-4)` gives them. */
  function TimestampSuffix(t: nat): (s: string)
    ensures var d := NatToString(t);
              |s| == (if |d| < 4 then |d| else 4) && s == d[|d| - |s|..]
    ensures 1 <= |s| <= 4
    ensures forall i :: 0 <= i < |s| ==> IsDigit(s[i])
  {
    SliceFromEnd(NatToString(t), 4)
  }

  /** The password and the last name end in the same suffix of the timestamp. */
  lemma {:induction false} GeneratedSecretShape(t: nat)
    ensures var u := GenRandomUser(t);
              && u.password == "P@ssw0rd-" + TimestampSuffix(t)
              && u.lastName == "Tester" + TimestampSuffix(t)
              && u.password[9..] == u.lastName[6..] == TimestampSuffix(t)
  {
  }

  /** A timestamp of four or more digits contributes its last four, which read
      back as the timestamp modulo 10000. */
  lemma {:induction false} SuffixIsLastFourDigits(t: nat)
    requires t >= 1000
    ensures |TimestampSuffix(t)| == 4
    ensures ParseDecimal(TimestampSuffix(t)) == t % 10000
  {
    assert Pow10(3) == 1000 && Pow10(4) == 10000;
    NatToStringLength(t, 3);
    LastDigitsValue(t, 4);
  }

  /** A timestamp below 10000 contributes all its digits. */
  lemma {:induction false} ShortTimestampSuffix(t: nat)
    requires t < 10000
    ensures TimestampSuffix(t) == NatToString(t)
  {
    assert Pow10(4) == 10000;
    NatToStringLength(t, 4);
  }

  /** The login credentials (lines `loginCredUser` and `loginCredPass`):
      the seeded pair when both are non-empty, else the generated user, else
      each seeded value or its own last-resort default. */
  function LoginCredentials(env: TestEnv, testUser: Option<User>): (creds: (string, string))
    ensures Truthy(env.seedUsername) && Truthy(env.seedPassword) ==>
              creds == (env.seedUsername.value, env.seedPassword.value)
    ensures !(Truthy(env.seedUsername) && Truthy(env.seedPassword)) && testUser.Some? ==>
              creds == (testUser.value.username, testUser.value.password)
    ensures !(Truthy(env.seedUsername) && Truthy(env.seedPassword)) && testUser.None? ==>
              creds.0 == (if Truthy(env.seedUsername) then env.seedUsername.value else "piyush") &&
              creds.1 == (if Truthy(env.seedPassword) then env.seedPassword.value else "p")
  {
    var seeded := SeededCredentials(env);
    var bothSeeded := seeded.0 != "" && seeded.1 != "";
    var user := if bothSeeded then seeded.0
                else if testUser.Some? then testUser.value.username
                else OrDefault(env.seedUsername, "piyush");
    var pass := if bothSeeded then seeded.1
                else if testUser.Some? then testUser.value.password
                else OrDefault(env.seedPassword, "p");
    (user, pass)
  }

  /** The user registered at time `now`, if registration runs. */
  function RegisteredUser(env: TestEnv, now: nat): (u: Option<User>)
    ensures u.Some? <==> ShouldRegister(env)
    ensures u.Some? ==> u.value == GenRandomUser(now)
  {
    if ShouldRegister(env) then Some(GenRandomUser(now)) else None
  }

  /** With both seeds set the test never registers and logs in with the seeds. */
  lemma SeededScenario(env: TestEnv, now: nat)
    requires Truthy(env.seedUsername) && Truthy(env.seedPassword)
    ensures RegisteredUser(env, now) == None
    ensures LoginCredentials(env, RegisteredUser(env, now)) == (env.seedUsername.value, env.seedPassword.value)
  {
  }

  /** Without both seeds, and unless registration is skipped, the test logs in
      as the user it has just registered. */
  lemma UnseededScenario(env: TestEnv, now: nat)
    requires !Truthy(env.skipRegistration)
    requires !Truthy(env.seedUsername) || !Truthy(env.seedPassword)
    ensures RegisteredUser(env, now) == Some(GenRandomUser(now))
    ensures LoginCredentials(env, RegisteredUser(env, now)) ==
              ("user" + NatToString(now), "P@ssw0rd-" + TimestampSuffix(now))
  {
  }

  /** With registration skipped and only a seeded username, the test logs in as
      that user with the default password "p". */
  lemma SkippedWithoutSeededPassword(env: TestEnv, now: nat)
    requires Truthy(env.skipRegistration)
    requires Truthy(env.seedUsername) && !Truthy(env.seedPassword)
    ensures RegisteredUser(env, now) == None
    ensures LoginCredentials(env, RegisteredUser(env, now)) == (env.seedUsername.value, "p")
  {
  }

  // ---------------------------------------------------------------------
  // The find-transactions step.

  const TransactionDateNotFound := "Transaction date field not found after retries"

  datatype StepResult = Pass | Fail(message: string)

  /** The check for `#transactionDate` with its retry loop, then the
      terminal rule: without the field the test still passes when
      `#accountId` is on the page, and fails with an explicit error otherwise. */
  method FindTransactions(os: seq<Attempt>, accountIdPresent: bool) returns (r: StepResult, loop: LoopResult)
    requires |os| >= 3
    ensures !loop.exit.Threw?
    ensures 1 <= loop.attempts <= 3
    ensures loop.reloads == Banners(os[..loop.attempts])
    ensures Success in os[..3] ==> r == Pass
    ensures Success !in os[..3] && accountIdPresent ==> r == Pass
    ensures Success !in os[..3] && !accountIdPresent ==> r == Fail(TransactionDateNotFound)
  {
    loop := FindTransactionsWithRetry(os);
    var foundTransactionField := loop.exit == Passed;
    if !foundTransactionField {
      if accountIdPresent {
        return Pass, loop;
      }
      return Fail(TransactionDateNotFound), loop;
    }
    r := Pass;
  }
}
