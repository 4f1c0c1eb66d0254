/** The one-time setup that runs before the suite: resolve credentials
    from the environment, skip when they are missing, otherwise open a
    browser, log in on the login page derived from the base URL and save
    the session state. Browser calls are outcomes supplied by the caller;
    the method returns the actions performed, in order. */
module GlobalSetup {
  import opened Text

  /** The environment variables the setup reads. */
  datatype SetupEnv = SetupEnv(
    parabankUser: Option<string>, username: Option<string>,
    parabankPass: Option<string>, password: Option<string>,
    baseUrl: Option<string>)

  const DefaultBase := "http://127.0.0.1:3000"

  /** `PARABANK_USER || USERNAME` and `PARABANK_PASS || PASSWORD`. */
  function Credentials(env: SetupEnv): (creds: (Option<string>, Option<string>))
    ensures creds.0 == if Truthy(env.parabankUser) then env.parabankUser else env.username
    ensures creds.1 == if Truthy(env.parabankPass) then env.parabankPass else env.password
  {
    (Or(env.parabankUser, env.username), Or(env.parabankPass, env.password))
  }

  /** `!user || !pass`: the setup returns at once, which happens exactly when
      neither variable of some pair is a non-empty string. */
  predicate MissingCredentials(env: SetupEnv)
    ensures MissingCredentials(env) <==>
              (!Truthy(env.parabankUser) && !Truthy(env.username)) ||
              (!Truthy(env.parabankPass) && !Truthy(env.password))
  {
    !Truthy(Credentials(env).0) || !Truthy(Credentials(env).1)
  }

  /** The setup is skipped exactly when neither variable of some pair is a
      non-empty string. */
  lemma MissingCredentialsIff(env: SetupEnv)
    ensures MissingCredentials(env) <==>
              (!Truthy(env.parabankUser) && !Truthy(env.username)) ||
              (!Truthy(env.parabankPass) && !Truthy(env.password))
  {
  }

  /** `(BASE_URL || 'http://127.0.0.1:3000').replace(/\/[^\/]*$/, '')`. */
  function Base(env: SetupEnv): (base: string)
    ensures var s := OrDefault(env.baseUrl, DefaultBase);
              && base <= s
              && ((forall i :: 0 <= i < |s| ==> s[i] != '/') ==> base == s)
              && ((exists i :: 0 <= i < |s| && s[i] == '/') ==>
                    |base| < |s| && s[|base|] == '/' && forall i :: |base| < i < |s| ==> s[i] != '/')
  {
    StripLastSegment(OrDefault(env.baseUrl, DefaultBase))
  }

  /** `${base}/login.htm`. */
  function LoginUrl(env: SetupEnv): (url: string)
    ensures EndsWith(url, "/login.htm")
    ensures url[..|url| - |"/login.htm"|] == Base(env)
  {
    Base(env) + "/login.htm"
  }

  /** Without BASE_URL the default `http://127.0.0.1:3000` loses its host
      and port: the last '/' is the second of "//", so the base becomes
      `http:/` and the login page is looked for at `http://login.htm`. */
  lemma DefaultBaseLosesHost(env: SetupEnv)
    requires !Truthy(env.baseUrl)
    ensures Base(env) == "http:/"
    ensures LoginUrl(env) == "http://login.htm"
  {
    var s := DefaultBase;
    assert s[5] == '/' && s[6] == '/';
    assert forall i :: 6 < i < |s| ==> s[i] != '/';
    assert s[..6] == "http:/";
  }

  /** A base that ends in a file name under a path loses only the file name. */
  lemma BaseDropsFileName(env: SetupEnv, prefix: string, file: string)
    requires env.baseUrl == Some(prefix + "/" + file)
    requires forall i :: 0 <= i < |file| ==> file[i] != '/'
    ensures Base(env) == prefix
  {
    var s := prefix + "/" + file;
    assert s[|prefix|] == '/';
    assert forall i :: |prefix| < i < |s| ==> s[i] == file[i - |prefix| - 1];
    assert s[..|prefix|] == prefix;
  }

  /** The outcome of one awaited browser call (the page object of the
      Transfer Funds page has a twin of this type, `TransferPage.Call`). */
  datatype Call = Ok | Throws(err: string)

  datatype SetupOutcomes = SetupOutcomes(
    launch: Call, newPage: Call, goto: Call, waitUsernameField: Call,
    fillUsername: Call, fillPassword: Call, clickLogIn: Call,
    waitLogoutLink: Call, saveStorageState: Call)

  datatype SetupAction =
    | Launch
    | NewPage
    | Goto(url: string)
    | WaitUsernameField
    | FillUsername(user: string)
    | FillPassword(pass: string)
    | ClickLogIn
    | WaitLogoutLink
    | SaveStorageState
    | CloseBrowser

  datatype SetupResult =
    | NoCredentials
    | LoginPageUnavailable(err: string)
    | Authenticated
    | Threw(err: string)

  /** Whether the login page was reached and its username field appeared. */
  predicate LoginPageReached(o: SetupOutcomes) {
    o.launch.Ok? && o.newPage.Ok? && o.goto.Ok? && o.waitUsernameField.Ok?
  }

  /** The awaited calls after the login page is reached, in call order. */
  function LogInCalls(o: SetupOutcomes): seq<Call> {
    [o.fillUsername, o.fillPassword, o.clickLogIn, o.waitLogoutLink, o.saveStorageState]
  }

  /** Every awaited browser call of the setup, in call order; call i is the
      one made by action i of `FullTrace`. */
  function SetupCalls(o: SetupOutcomes): seq<Call> {
    [o.launch, o.newPage, o.goto, o.waitUsernameField,
     o.fillUsername, o.fillPassword, o.clickLogIn, o.waitLogoutLink, o.saveStorageState]
  }

  /** Index of the first call in `cs` that throws, or |cs| when none does
      (the same search as `Retry.FirstSuccess` and `DemoServer.IndexOf`). */
  function FirstFailure(cs: seq<Call>): (k: nat)
    ensures k <= |cs|
    ensures k < |cs| ==> cs[k].Throws?
    ensures forall j :: 0 <= j < k ==> cs[j].Ok?
  {
    if cs == [] then 0 else if cs[0].Throws? then 0 else 1 + FirstFailure(cs[1..])
  }

  /** A call that throws after calls that all succeed is the first failure. */
  lemma FirstFailureAt(cs: seq<Call>, k: nat)
    requires k < |cs| && cs[k].Throws?
    requires forall j :: 0 <= j < k ==> cs[j].Ok?
    ensures FirstFailure(cs) == k
  {
  }

  /** Calls that all succeed can be skipped when looking for the first failure. */
  lemma {:induction false} FirstFailureSkip(cs: seq<Call>, n: nat)
    requires n <= |cs|
    requires forall j :: 0 <= j < n ==> cs[j].Ok?
    ensures FirstFailure(cs) == n + FirstFailure(cs[n..])
    decreases n
  {
    if n > 0 {
      assert cs[1..][n - 1..] == cs[n..];
      FirstFailureSkip(cs[1..], n - 1);
    }
  }

  /** The actions after the login page is reached, when all succeed. */
  function LogInSteps(user: string, pass: string): seq<SetupAction> {
    [FillUsername(user), FillPassword(pass), ClickLogIn, WaitLogoutLink, SaveStorageState, CloseBrowser]
  }

  /** The actions of a setup that authenticates, CloseBrowser being the last. */
  function FullTrace(env: SetupEnv): seq<SetupAction>
    requires !MissingCredentials(env)
  {
    [Launch, NewPage, Goto(LoginUrl(env)), WaitUsernameField] +
    LogInSteps(Credentials(env).0.value, Credentials(env).1.value)
  }

  /** The actions after the login page is reached: the steps up to and
      including the first failing call, or all of them. */
  function LogInTrace(user: string, pass: string, o: SetupOutcomes): seq<SetupAction> {
    var k := FirstFailure(LogInCalls(o));
    if k < 5 then LogInSteps(user, pass)[..k + 1] else LogInSteps(user, pass)
  }

  /** How the login ends: the first failing call's own error, or authenticated. */
  function LogInResult(o: SetupOutcomes): SetupResult {
    var cs := LogInCalls(o);
    var k := FirstFailure(cs);
    if k < |cs| then Threw(cs[k].err) else Authenticated
  }

  /** Lines after the login page is reached: fill in the credentials,
      submit, wait for the logout link, save the session and close the
      browser. None of these calls is guarded, so a failure propagates and
      the browser is left open. */
  method LogInAndSave(user: string, pass: string, o: SetupOutcomes) returns (steps: seq<SetupAction>, result: SetupResult)
    ensures steps == LogInTrace(user, pass, o)
    ensures result == LogInResult(o)
  {
    ghost var cs := LogInCalls(o);
    if o.fillUsername.Throws? {
      FirstFailureAt(cs, 0);
      return [FillUsername(user)], Threw(o.fillUsername.err);
    }
    if o.fillPassword.Throws? {
      FirstFailureAt(cs, 1);
      return [FillUsername(user), FillPassword(pass)], Threw(o.fillPassword.err);
    }
    if o.clickLogIn.Throws? {
      FirstFailureAt(cs, 2);
      return [FillUsername(user), FillPassword(pass), ClickLogIn], Threw(o.clickLogIn.err);
    }
    if o.waitLogoutLink.Throws? {
      FirstFailureAt(cs, 3);
      return [FillUsername(user), FillPassword(pass), ClickLogIn, WaitLogoutLink], Threw(o.waitLogoutLink.err);
    }
    if o.saveStorageState.Throws? {
      FirstFailureAt(cs, 4);
      return [FillUsername(user), FillPassword(pass), ClickLogIn, WaitLogoutLink, SaveStorageState],
        Threw(o.saveStorageState.err);
    }
    assert FirstFailure(cs) == |cs|;
    steps := [FillUsername(user), FillPassword(pass), ClickLogIn, WaitLogoutLink, SaveStorageState, CloseBrowser];
    result := Authenticated;
  }

  /** What the login guarantees: it authenticates exactly when every call
      succeeds, closing the browser last; otherwise the error of the first
      failing call propagates after a proper start of the steps that ends in
      that call, leaving the browser open. */
  lemma LogInReference(user: string, pass: string, o: SetupOutcomes)
    ensures var steps, result := LogInTrace(user, pass, o), LogInResult(o);
              && (result == Authenticated || result.Threw?)
              && (result.Threw? ==> 1 <= |steps| < |LogInSteps(user, pass)| && steps == LogInSteps(user, pass)[..|steps|])
              && (result == Authenticated <==>
                    o.fillUsername.Ok? && o.fillPassword.Ok? && o.clickLogIn.Ok? &&
                    o.waitLogoutLink.Ok? && o.saveStorageState.Ok?)
              && (result == Authenticated ==> steps == LogInSteps(user, pass) && steps[|steps| - 1] == CloseBrowser)
              && (var k := FirstFailure(LogInCalls(o));
                    k < |LogInCalls(o)| ==> result == Threw(LogInCalls(o)[k].err) && |steps| == k + 1)
  {
    var cs := LogInCalls(o);
    var k := FirstFailure(cs);
    assert cs[0] == o.fillUsername && cs[1] == o.fillPassword && cs[2] == o.clickLogIn;
    assert cs[3] == o.waitLogoutLink && cs[4] == o.saveStorageState;
    if k < |cs| {
      assert cs[k].Throws?;
    }
  }

  /** A missing logout link after a successful submission throws the wait's
      own error, after exactly the four steps up to the wait. */
  lemma MissingLogoutLinkAfterSubmit(user: string, pass: string, o: SetupOutcomes)
    requires o.fillUsername.Ok? && o.fillPassword.Ok? && o.clickLogIn.Ok? && o.waitLogoutLink.Throws?
    ensures LogInResult(o) == Threw(o.waitLogoutLink.err)
    ensures LogInTrace(user, pass, o) == [FillUsername(user), FillPassword(pass), ClickLogIn, WaitLogoutLink]
  {
    FirstFailureAt(LogInCalls(o), 3);
    assert LogInSteps(user, pass)[..4] == [FillUsername(user), FillPassword(pass), ClickLogIn, WaitLogoutLink];
  }

  /** Launching the browser, opening a page, and the guarded navigation to
      the login page: a failure of the launch or of the page creation
      propagates; a failure of the navigation or of the wait for the
      username field is caught, the browser is closed and the setup
      returns. `early` is how the setup ends when it does not go on to log in. */
  method OpenLoginPage(url: string, o: SetupOutcomes) returns (steps: seq<SetupAction>, early: Option<SetupResult>)
    ensures early.None? <==> LoginPageReached(o)
    ensures early.None? ==> steps == [Launch, NewPage, Goto(url), WaitUsernameField]
    ensures o.launch.Throws? ==> steps == [Launch] && early == Some(Threw(o.launch.err))
    ensures o.launch.Ok? && o.newPage.Throws? ==>
              steps == [Launch, NewPage] && early == Some(Threw(o.newPage.err))
    ensures o.launch.Ok? && o.newPage.Ok? && o.goto.Throws? ==>
              steps == [Launch, NewPage, Goto(url), CloseBrowser] && early == Some(LoginPageUnavailable(o.goto.err))
    ensures o.launch.Ok? && o.newPage.Ok? && o.goto.Ok? && o.waitUsernameField.Throws? ==>
              steps == [Launch, NewPage, Goto(url), WaitUsernameField, CloseBrowser] &&
              early == Some(LoginPageUnavailable(o.waitUsernameField.err))
  {
    if o.launch.Throws? {
      return [Launch], Some(Threw(o.launch.err));
    }
    if o.newPage.Throws? {
      return [Launch, NewPage], Some(Threw(o.newPage.err));
    }
    // try { goto(`${base}/login.htm`); waitForSelector } catch { close; return }
    if o.goto.Throws? {
      return [Launch, NewPage, Goto(url), CloseBrowser], Some(LoginPageUnavailable(o.goto.err));
    }
    if o.waitUsernameField.Throws? {
      return [Launch, NewPage, Goto(url), WaitUsernameField, CloseBrowser],
        Some(LoginPageUnavailable(o.waitUsernameField.err));
    }
    steps, early := [Launch, NewPage, Goto(url), WaitUsernameField], None;
  }

  // ---------------------------------------------------------------------
  // The reference behaviour of the whole setup, decided by the first call
  // that throws.

  /** The actions of the setup: none when it is skipped; otherwise the full
      sequence up to and including the first failing call, followed by the
      close when that call is caught (the navigation or the username field). */
  function SetupTrace(env: SetupEnv, o: SetupOutcomes): seq<SetupAction> {
    if MissingCredentials(env) then []
    else
      var k := FirstFailure(SetupCalls(o));
      if k == 2 || k == 3 then FullTrace(env)[..k + 1] + [CloseBrowser]
      else if k < 9 then FullTrace(env)[..k + 1]
      else FullTrace(env)
  }

  /** How the setup ends: skipped, the login page unavailable (a caught
      failure), the first failing call's own error, or authenticated. */
  function SetupResultOf(env: SetupEnv, o: SetupOutcomes): SetupResult {
    if MissingCredentials(env) then NoCredentials
    else
      var cs := SetupCalls(o);
      var k := FirstFailure(cs);
      if k == 2 || k == 3 then LoginPageUnavailable(cs[k].err)
      else if k < |cs| then Threw(cs[k].err)
      else Authenticated
  }

  /** `globalSetup(config)`. */
  method RunSetup(env: SetupEnv, o: SetupOutcomes) returns (trace: seq<SetupAction>, result: SetupResult)
    ensures trace == SetupTrace(env, o)
    ensures result == SetupResultOf(env, o)
  {
    var creds := Credentials(env);
    var user, pass := creds.0, creds.1;
    if !Truthy(user) || !Truthy(pass) {
      return [], NoCredentials;
    }
    var preamble, early := OpenLoginPage(LoginUrl(env), o);
    if early.Some? {
      UnreachedIsReference(env, o);
      return preamble, early.value;
    }
    var steps;
    steps, result := LogInAndSave(user.value, pass.value, o);
    ReachedIsReference(env, o);
    trace := preamble + steps;
  }

  /** When the login page is not reached, the reference behaviour is that of
      the first failing call among the launch, the page creation, the
      navigation and the wait for the username field. */
  lemma UnreachedIsReference(env: SetupEnv, o: SetupOutcomes)
    requires !MissingCredentials(env) && !LoginPageReached(o)
    ensures var url := LoginUrl(env);
              && (o.launch.Throws? ==> SetupTrace(env, o) == [Launch] && SetupResultOf(env, o) == Threw(o.launch.err))
              && (o.launch.Ok? && o.newPage.Throws? ==>
                    SetupTrace(env, o) == [Launch, NewPage] && SetupResultOf(env, o) == Threw(o.newPage.err))
              && (o.launch.Ok? && o.newPage.Ok? && o.goto.Throws? ==>
                    SetupTrace(env, o) == [Launch, NewPage, Goto(url), CloseBrowser] &&
                    SetupResultOf(env, o) == LoginPageUnavailable(o.goto.err))
              && (o.launch.Ok? && o.newPage.Ok? && o.goto.Ok? && o.waitUsernameField.Throws? ==>
                    SetupTrace(env, o) == [Launch, NewPage, Goto(url), WaitUsernameField, CloseBrowser] &&
                    SetupResultOf(env, o) == LoginPageUnavailable(o.waitUsernameField.err))
  {
    var cs := SetupCalls(o);
    var full := FullTrace(env);
    if o.launch.Throws? {
      FirstFailureAt(cs, 0);
      assert full[..1] == [Launch];
    } else if o.newPage.Throws? {
      FirstFailureAt(cs, 1);
      assert full[..2] == [Launch, NewPage];
    } else if o.goto.Throws? {
      FirstFailureAt(cs, 2);
      assert full[..3] == [Launch, NewPage, Goto(LoginUrl(env))];
    } else {
      FirstFailureAt(cs, 3);
      assert full[..4] == [Launch, NewPage, Goto(LoginUrl(env)), WaitUsernameField];
    }
  }

  /** When the login page is reached, the first failure is found among the
      login calls. */
  lemma ReachedFirstFailure(o: SetupOutcomes)
    requires LoginPageReached(o)
    ensures FirstFailure(SetupCalls(o)) == 4 + FirstFailure(LogInCalls(o))
    ensures forall k :: 0 <= k < |LogInCalls(o)| ==> SetupCalls(o)[4 + k] == LogInCalls(o)[k]
  {
    var cs := SetupCalls(o);
    FirstFailureSkip(cs, 4);
    assert cs[4..] == LogInCalls(o);
  }

  /** When the login page is reached, the reference behaviour is the four
      opening actions followed by that of the login. */
  lemma ReachedIsReference(env: SetupEnv, o: SetupOutcomes)
    requires !MissingCredentials(env) && LoginPageReached(o)
    ensures SetupTrace(env, o) ==
              [Launch, NewPage, Goto(LoginUrl(env)), WaitUsernameField] +
              LogInTrace(Credentials(env).0.value, Credentials(env).1.value, o)
    ensures SetupResultOf(env, o) == LogInResult(o)
  {
    ReachedFirstFailure(o);
    var k := FirstFailure(LogInCalls(o));
    var head := [Launch, NewPage, Goto(LoginUrl(env)), WaitUsernameField];
    var tail := LogInSteps(Credentials(env).0.value, Credentials(env).1.value);
    assert FullTrace(env) == head + tail;
    if k < 5 {
      PrefixOfAppend(head, tail, k + 1);
      assert SetupTrace(env, o) == (head + tail)[..|head| + (k + 1)];
    }
  }

  /** Taking a prefix that reaches into the second part of a concatenation. */
  lemma PrefixOfAppend<T>(a: seq<T>, b: seq<T>, n: nat)
    requires n <= |b|
    ensures (a + b)[..|a| + n] == a + b[..n]
  {
  }

  /** The full sequence has ten actions, and only the last closes the browser. */
  lemma FullTraceShape(env: SetupEnv)
    requires !MissingCredentials(env)
    ensures |FullTrace(env)| == 10
    ensures FullTrace(env)[9] == CloseBrowser
    ensures forall j :: 0 <= j < 9 ==> FullTrace(env)[j] != CloseBrowser
  {
  }

  // ---------------------------------------------------------------------
  // What the reference behaviour guarantees.

  /** Missing credentials: the setup returns before any browser is launched,
      and only then. */
  lemma SkippedIff(env: SetupEnv, o: SetupOutcomes)
    ensures MissingCredentials(env) <==> SetupResultOf(env, o) == NoCredentials
    ensures MissingCredentials(env) ==> SetupTrace(env, o) == []
  {
  }

  /** With credentials, the browser is launched first, and once a page is
      open the login URL is the next place visited. */
  lemma LaunchThenGoto(env: SetupEnv, o: SetupOutcomes)
    requires !MissingCredentials(env)
    ensures |SetupTrace(env, o)| >= 1 && SetupTrace(env, o)[0] == Launch
    ensures o.launch.Ok? && o.newPage.Ok? ==>
              |SetupTrace(env, o)| >= 3 && SetupTrace(env, o)[2] == Goto(LoginUrl(env))
  {
    var cs := SetupCalls(o);
    if o.launch.Ok? && o.newPage.Ok? {
      assert FirstFailure(cs) >= 2 by {
        assert cs[0] == o.launch && cs[1] == o.newPage;
      }
    }
  }

  /** A failure of the navigation or of the wait for the username field is
      caught: the browser is closed and the setup returns normally, and this
      happens only after the launch and the page creation succeeded. */
  lemma LoginPageFailureCloses(env: SetupEnv, o: SetupOutcomes)
    requires !MissingCredentials(env)
    ensures o.launch.Ok? && o.newPage.Ok? && o.goto.Throws? ==>
              SetupResultOf(env, o) == LoginPageUnavailable(o.goto.err) &&
              SetupTrace(env, o) == [Launch, NewPage, Goto(LoginUrl(env)), CloseBrowser]
    ensures o.launch.Ok? && o.newPage.Ok? && o.goto.Ok? && o.waitUsernameField.Throws? ==>
              SetupResultOf(env, o) == LoginPageUnavailable(o.waitUsernameField.err) &&
              SetupTrace(env, o) == [Launch, NewPage, Goto(LoginUrl(env)), WaitUsernameField, CloseBrowser]
    ensures SetupResultOf(env, o).LoginPageUnavailable? ==>
              o.launch.Ok? && o.newPage.Ok? && (o.goto.Throws? || o.waitUsernameField.Throws?)
  {
    var cs := SetupCalls(o);
    var full := FullTrace(env);
    assert cs[0] == o.launch && cs[1] == o.newPage && cs[2] == o.goto && cs[3] == o.waitUsernameField;
    if o.launch.Ok? && o.newPage.Ok? && o.goto.Throws? {
      FirstFailureAt(cs, 2);
      assert full[..3] == [Launch, NewPage, Goto(LoginUrl(env))];
    }
    if o.launch.Ok? && o.newPage.Ok? && o.goto.Ok? && o.waitUsernameField.Throws? {
      FirstFailureAt(cs, 3);
      assert full[..4] == [Launch, NewPage, Goto(LoginUrl(env)), WaitUsernameField];
    }
  }

  /** Any other failure is not caught: the setup throws that call's own
      error after a proper start of the full sequence that ends in the
      failing call, and the browser is left open. */
  lemma {:induction false} UncaughtFailureLeavesBrowserOpen(env: SetupEnv, o: SetupOutcomes)
    ensures SetupResultOf(env, o).Threw? ==>
              var k := FirstFailure(SetupCalls(o));
              && !MissingCredentials(env)
              && k < |SetupCalls(o)| && k != 2 && k != 3
              && SetupResultOf(env, o) == Threw(SetupCalls(o)[k].err)
              && 1 <= |SetupTrace(env, o)| < |FullTrace(env)|
              && SetupTrace(env, o) == FullTrace(env)[..|SetupTrace(env, o)|]
              && SetupTrace(env, o)[|SetupTrace(env, o)| - 1] != CloseBrowser
  {
    if SetupResultOf(env, o).Threw? {
      FullTraceShape(env);
      var k := FirstFailure(SetupCalls(o));
      assert SetupTrace(env, o) == FullTrace(env)[..k + 1];
      assert SetupTrace(env, o)[k] == FullTrace(env)[k];
    }
  }

  /** `chromium.launch()` and `browser.newPage()` are outside any `try`: their
      failure is the setup's. */
  lemma LaunchFailuresThrow(env: SetupEnv, o: SetupOutcomes)
    requires !MissingCredentials(env)
    ensures o.launch.Throws? ==> SetupResultOf(env, o) == Threw(o.launch.err) && SetupTrace(env, o) == [Launch]
    ensures o.launch.Ok? && o.newPage.Throws? ==>
              SetupResultOf(env, o) == Threw(o.newPage.err) && SetupTrace(env, o) == [Launch, NewPage]
  {
    if !LoginPageReached(o) {
      UnreachedIsReference(env, o);
    }
  }

  /** The setup authenticates exactly when every call succeeds. */
  lemma AuthenticatedIff(env: SetupEnv, o: SetupOutcomes)
    ensures SetupResultOf(env, o) == Authenticated <==>
              !MissingCredentials(env) && LoginPageReached(o) &&
              o.fillUsername.Ok? && o.fillPassword.Ok? && o.clickLogIn.Ok? &&
              o.waitLogoutLink.Ok? && o.saveStorageState.Ok?
  {
    if !MissingCredentials(env) {
      if LoginPageReached(o) {
        ReachedIsReference(env, o);
        LogInReference(Credentials(env).0.value, Credentials(env).1.value, o);
      } else {
        UnreachedIsReference(env, o);
      }
    }
  }

  /** An authenticated setup performs the full sequence, closing the browser last. */
  lemma AuthenticatedTrace(env: SetupEnv, o: SetupOutcomes)
    ensures SetupResultOf(env, o) == Authenticated ==>
              SetupTrace(env, o) == FullTrace(env) && FullTrace(env)[|FullTrace(env)| - 1] == CloseBrowser
  {
    if SetupResultOf(env, o) == Authenticated {
      FullTraceShape(env);
    }
  }

  /** A missing logout link after a successful login submission throws the
      wait's own error. */
  lemma MissingLogoutLinkThrows(env: SetupEnv, o: SetupOutcomes)
    requires !MissingCredentials(env) && LoginPageReached(o)
    requires o.fillUsername.Ok? && o.fillPassword.Ok? && o.clickLogIn.Ok? && o.waitLogoutLink.Throws?
    ensures SetupResultOf(env, o) == Threw(o.waitLogoutLink.err)
  {
    FirstFailureAt(SetupCalls(o), 7);
  }
}
