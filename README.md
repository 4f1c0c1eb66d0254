# ParaBank end-to-end automation: a Dafny model of its decision logic

The repository runs a Playwright end-to-end scenario against the ParaBank demo
banking site, or against a small Express mock of it. This project models the
parts of that code that make decisions. Every browser call is abstracted to an
outcome given by the caller. `Date.now()` is a parameter.

- **The scenario script** (`tests/parabank-cv.spec.js`), module `Orchestrator`:
  - how the start URL is normalised;
  - whether a fresh user is registered;
  - which credentials are used to log in;
  - how a user is generated from the clock;
  - the terminal rule of the find-transactions step.
- **The retry loops** of that script, module `Retry`:
  - one while-loop method, parameterised by the constants of the three call sites (transfer, bill pay, find transactions);
  - it is proved against closed-form functions of the per-attempt outcomes.
- **The Transfer Funds page object** (`pages/TransferFundsPage.js`), module `TransferPage`:
  - `transferFunds` is a method that returns the page actions it performed and how it ended;
  - it is proved equal to a reference definition, whose properties are lemmas.
- **The mock server** (`demo-server.js`), module `DemoServer`:
  - its module-level store is a class with a user map, an account counter and an account list;
  - each POST handler is a method on it.
- **The global setup** (`global-setup.js`), module `GlobalSetup`:
  - credential resolution and the skip rule;
  - base-URL stripping;
  - the login sequence, with its caught and uncaught failures.
- **Shared JavaScript string behaviour**, module `Text`:
  - truthiness and `||` on possibly-absent strings;
  - `endsWith`;
  - the two regular-expression replacements;
  - `String(n)`, with a decimal parser as its inverse;
  - `slice(-k)`.

## The retry comment and the loop disagree on exhaustion

The comment above the transfer loop (tests/parabank-cv.spec.js:82-83) says the step is attempted "up to 1 times before failing". Running out of attempts should therefore fail the step.

The loop does this only when the last attempt fails *without* the internal-error banner. A banner failure reloads the page and `continue`s before the attempt number is checked. So when the last attempt shows the banner, the loop ends, the step does not throw, and the scenario moves on to the next step.

The model follows the code. This behaviour is stated in `Retry.BannerOnLastAttemptFallsThrough` and `Retry.AlwaysBanner`.

## Model

| member | source | states |
|---|---|---|
| Text.TrimTrailingSlashes | tests/parabank-cv.spec.js:16 | the result is a prefix of the input that does not end in '/', and everything the prefix leaves out of the input is '/' |
| Text.StripLastSegment | global-setup.js:25 | the result is a prefix of the input; an input without '/' is unchanged; otherwise the result stops at the last '/' of the input, and no '/' follows it |
| Text.SliceFromEnd | tests/parabank-cv.spec.js:25 | `slice(-k)` gives the last k characters, or the whole string when it is shorter than k |
| Text.NatToString | demo-server.js:37 | `String(n)` is a non-empty string of decimal digits, with two or more digits exactly when n >= 10 |
| Text.ParseNatToString | demo-server.js:37 | reading the decimal rendering of n back gives n |
| Text.NatToStringInjective | demo-server.js:37 | distinct numbers have distinct renderings |
| Text.PrefixedNatToStringInjective | tests/parabank-cv.spec.js:24 | after a common prefix, the renderings of distinct numbers stay distinct |
| Text.LastDigitsValue | tests/parabank-cv.spec.js:25 | the last k digits of `String(n)` read back as n mod 10^k |
| Text.NatToStringLength | tests/parabank-cv.spec.js:25 | `String(n)` has at most k digits exactly when n < 10^k |
| Retry.FirstSuccess | tests/parabank-cv.spec.js:86-94 | the index found is that of a success, and no earlier attempt succeeded; it is the length of the input when no attempt succeeded |
| Retry.RunRetry | tests/parabank-cv.spec.js:86-116 | the loop's result is the closed-form description of the outcomes: it exits as ExitOf, the attempts made are Consumed, the reloads are the banner failures among those attempts, the waits are the backoffs of the failures without a banner before the last allowed attempt, and the last error is recorded |
| Retry.TransferWithRetry | tests/parabank-cv.spec.js:84-116 | exactly one attempt and never a wait; a success passes; a banner failure reloads once and falls through; any other failure rethrows its error |
| Retry.BillPayWithRetry | tests/parabank-cv.spec.js:121-155 | one to three attempts, stopping at the first success (the attempts made are Consumed); passes iff one of the three succeeds; throws iff none does and the third fails without the banner, and then rethrows that error; falls through iff none succeeds and the third shows the banner; reloads equal the banner failures; the waits are exactly the backoffs 1500 ms times the attempt number of each failure without the banner on attempts 1 and 2, so every wait is 1500 or 3000 ms |
| Retry.FindTransactionsWithRetry | tests/parabank-cv.spec.js:167-187 | one to three attempts, stopping at the first success (the attempts made are Consumed); never throws; passes iff one of the three succeeds; reloads equal the banner failures; the waits are exactly the backoffs 1000 ms times the attempt number of each failure without the banner on attempts 1 and 2 |
| Retry.SuccessInPrefix | tests/parabank-cv.spec.js:86-94 | the loop passes iff some allowed attempt succeeds, and then it stops at the first success; it makes at most the bound of attempts, and at least one |
| Retry.BannerOnLastAttemptFallsThrough | tests/parabank-cv.spec.js:98-110 | without any success, a banner failure on the last allowed attempt ends the loop without throwing, after all the attempts |
| Retry.NoBannerOnLastAttemptThrows | tests/parabank-cv.spec.js:111-112 | without any success, a failure without the banner on the last allowed attempt rethrows exactly that attempt's error |
| Retry.AllBanners | tests/parabank-cv.spec.js:98-110 | attempts that all show the banner give one reload each and no waits |
| Retry.TransientThenSuccess | tests/parabank-cv.spec.js:86-110 | n - 1 banner failures followed by a success pass after exactly n attempts, with n - 1 reloads and no waits |
| Retry.AlwaysBanner | tests/parabank-cv.spec.js:141-151 | a step that always shows the banner uses every allowed attempt and reloads after each; it never waits and ends without an error |
| Retry.ReloadsAndWaitsBounded | tests/parabank-cv.spec.js:98-114 | reloads plus waits never exceed the attempts made |
| Retry.BackoffsScaled | tests/parabank-cv.spec.js:112-114 | each wait is the unit times an attempt number below the bound; with a positive unit the waits strictly increase and never exceed the unit times the attempts made |
| Orchestrator.IndexUrl | tests/parabank-cv.spec.js:16 | the URL always ends in "/index.htm"; a base already ending in it is unchanged; otherwise the URL is a prefix of the base that does not end in '/', with "/index.htm" appended, and the part of the base left out is all '/' |
| Orchestrator.IndexUrlIdempotent | tests/parabank-cv.spec.js:16 | normalising twice equals normalising once |
| Orchestrator.IndexUrlIgnoresTrailingSlash | tests/parabank-cv.spec.js:16 | when the base does not name the page, a trailing '/' changes nothing |
| Orchestrator.IndexUrlPageWithTrailingSlash | tests/parabank-cv.spec.js:16 | a base naming the page followed by '/' gets "/index.htm" appended a second time |
| Orchestrator.StartUrl | tests/parabank-cv.spec.js:15-16 | the first page ends in "/index.htm"; without BASE_URL it is https://parabank.parasoft.com/parabank/index.htm; with BASE_URL set it is that URL normalised by IndexUrl |
| Orchestrator.SeededCredentials | tests/parabank-cv.spec.js:10-11 | each seeded value is non-empty iff its variable is set and non-empty, and is then that variable's value |
| Orchestrator.ShouldRegister | tests/parabank-cv.spec.js:42 | registration runs iff it is not skipped and not both seeded credentials are non-empty |
| Orchestrator.ShouldRegisterIff | tests/parabank-cv.spec.js:42 | registration runs iff it is not skipped and at least one seeded credential is missing or empty |
| Orchestrator.GenRandomUser | tests/parabank-cv.spec.js:22-38 | the username is "user" followed by exactly `String(t)`; the last name is "Tester" and the password "P@ssw0rd-", each followed by the same suffix of the timestamp, of one to four digits |
| Orchestrator.GeneratedUsername | tests/parabank-cv.spec.js:23-24 | the username is "user" followed by exactly `String(t)`, whose digits read back as the timestamp |
| Orchestrator.GeneratedUsernamesDistinct | tests/parabank-cv.spec.js:23-24 | distinct timestamps give distinct usernames |
| Orchestrator.GeneratedSecretShape | tests/parabank-cv.spec.js:25-28 | the password is "P@ssw0rd-" plus the timestamp's last four characters, and the last name is "Tester" plus the same four |
| Orchestrator.TimestampSuffix | tests/parabank-cv.spec.js:25 | the suffix is the last min(4, number of digits) characters of `String(t)`: one to four digits |
| Orchestrator.SuffixIsLastFourDigits | tests/parabank-cv.spec.js:25 | from 1000 on, the suffix has four characters and reads back as the timestamp mod 10000 |
| Orchestrator.ShortTimestampSuffix | tests/parabank-cv.spec.js:25 | below 10000, the suffix is the whole timestamp |
| Orchestrator.LoginCredentials | tests/parabank-cv.spec.js:61-62 | both seeds when both are non-empty; otherwise the registered user's pair; otherwise each field on its own: its seed, or "piyush" for the user and "p" for the password |
| Orchestrator.RegisteredUser | tests/parabank-cv.spec.js:40-45 | a user is generated iff registration runs, and it is the user generated at that instant |
| Orchestrator.SeededScenario | tests/parabank-cv.spec.js:42-62 | with both seeds set, nobody registers and the login uses the seeds |
| Orchestrator.UnseededScenario | tests/parabank-cv.spec.js:42-62 | without both seeds, and without the skip, the login uses the freshly generated username and password |
| Orchestrator.SkippedWithoutSeededPassword | tests/parabank-cv.spec.js:61-62 | with the skip set and only a seeded username, the login uses that username with password "p" |
| Orchestrator.FindTransactions | tests/parabank-cv.spec.js:166-195 | never throws from the loop; passes when one of three attempts finds the field; without the field it passes iff `#accountId` is present, and otherwise fails with "Transaction date field not found after retries" |
| TransferPage.FallbackIndex | pages/TransferFundsPage.js:30 | the fallback index is 1 when there are two or more options, and within range whenever there is an option |
| TransferPage.ChooseTarget | pages/TransferFundsPage.js:26-35 | the selections tried and the error raised are those of the reference definition: the requested value first, then the fallback only when the first was not selected; only a failing fallback raises |
| TransferPage.SelectAndClick | pages/TransferFundsPage.js:22-37 | the actions of the try block and the error it raises are those of the reference definition |
| TransferPage.TransferFunds | pages/TransferFundsPage.js:18-46 | the action trace and the outcome are those of the reference definition |
| TransferPage.FillComesFirst | pages/TransferFundsPage.js:19 | the amount is filled first; its failure propagates at once, without diagnostics; after it, the options are counted |
| TransferPage.NoOptionsFails | pages/TransferFundsPage.js:23-24 | with zero options the call fails with "No options available in toAccount select"; it counts, captures diagnostics, and never selects or clicks |
| TransferPage.TryClicks | pages/TransferFundsPage.js:22-37 | inside the try block, Transfer is clicked once if a target was selected, and never otherwise |
| TransferPage.ClickedOnceIffSelected | pages/TransferFundsPage.js:26-37 | Transfer is clicked once if a target was selected, and never otherwise |
| TransferPage.DoneIff | pages/TransferFundsPage.js:18-37 | success iff the fill succeeds, a target is selected and the click succeeds; then the click is the last action, right after a selection |
| TransferPage.FailureCapturesDiagnostics | pages/TransferFundsPage.js:38-45 | a failure in the try block ends with the screenshot and the HTML capture; then the counting, selection or click error is rethrown unchanged |
| TransferPage.TargetChoice | pages/TransferFundsPage.js:26-35 | a requested account is tried first; if it is selected, no index is selected; otherwise the fallback index is selected; every selection by index picks the fallback, and it is in range |
| DemoServer.Store.constructor | demo-server.js:9-11 | the store starts with no users, no accounts and the counter at 17895 |
| DemoServer.Store.Register | demo-server.js:16-23 | a missing or empty field redirects to /register.htm and leaves the users unchanged; otherwise the user is stored, overwriting any earlier entry, and the handler redirects to /register-success.htm; the accounts are untouched; the store invariant is kept |
| DemoServer.Store.Login | demo-server.js:26-33 | redirects to /home.htm or /index.htm; any two non-empty fields are accepted; a registered username is accepted whatever the password; under the store invariant, accepted iff the username is non-empty and either registered or paired with a password |
| DemoServer.Store.OpenAccount | demo-server.js:36-40 | the new account is String of the old counter; it was not handed out before; it is appended; the counter goes up by one; users are unchanged; the redirect carries the account |
| DemoServer.Store.PostTransfer | demo-server.js:48-51 | changes no store state; the redirect starts with "/transfer-success.htm?to="; when the encoded destination holds no '&', the query up to its first '&' is the encoded destination and the rest is "&amount=" with the encoded amount |
| DemoServer.Store.PostBillPay | demo-server.js:54-57 | changes no store state; the redirect starts with "/billpay-success.htm?name=" and the rest of it is the encoded payee name |
| DemoServer.SequentialIdsDistinct | demo-server.js:36-38 | accounts minted in sequence never repeat |
| DemoServer.SequentialIdsIncrease | demo-server.js:36-38 | account i reads back as 17895 + i, so the accounts strictly increase |
| DemoServer.NewIdIsFresh | demo-server.js:37-38 | the next account number is not among those already handed out |
| DemoServer.FirstTwoAccounts | demo-server.js:10-38 | on a fresh server, the first two accounts opened are "17895" and "17896" |
| GlobalSetup.Credentials | global-setup.js:11-12 | the user is PARABANK_USER when it is non-empty, else USERNAME; the password is PARABANK_PASS when it is non-empty, else PASSWORD |
| GlobalSetup.MissingCredentials | global-setup.js:13 | the setup returns at once iff both variables of some pair are missing or empty |
| GlobalSetup.MissingCredentialsIff | global-setup.js:13-16 | the setup is skipped iff both variables of some pair are missing or empty |
| GlobalSetup.Base | global-setup.js:22-25 | the base is a prefix of BASE_URL, or of the default http://127.0.0.1:3000; a URL without '/' is kept whole; otherwise exactly the last '/' and what follows it are removed |
| GlobalSetup.LoginUrl | global-setup.js:32 | the login URL is the base followed by "/login.htm" |
| GlobalSetup.DefaultBaseLosesHost | global-setup.js:22-25 | the default base becomes "http:/", and the login page is then looked for at "http://login.htm" |
| GlobalSetup.BaseDropsFileName | global-setup.js:24-25 | a base that ends with a '/' followed by a file name loses exactly that file name |
| GlobalSetup.FirstFailure | global-setup.js:18-56 | the index found is that of a call that throws, and every earlier call succeeded; it is the number of calls when none throws |
| GlobalSetup.LogInAndSave | global-setup.js:42-58 | the steps and the result are those of the reference definition: the login steps up to and including the first call that throws, with that call's own error, or all the steps, ending in the close, and authenticated |
| GlobalSetup.LogInReference | global-setup.js:42-58 | the login authenticates iff every call succeeds, and then closes the browser last; otherwise the first failing call's own error propagates after a proper start of the steps ending in that call, leaving the browser open |
| GlobalSetup.MissingLogoutLinkAfterSubmit | global-setup.js:42-47 | a missing logout link after a successful submission throws the wait's own error after exactly the four steps up to the wait |
| GlobalSetup.OpenLoginPage | global-setup.js:18-39 | a failure of the launch or of the page creation propagates with its own error; a failure of the navigation or of the username-field wait closes the browser and ends the setup with that error; otherwise the four opening actions are taken and the setup goes on |
| GlobalSetup.RunSetup | global-setup.js:11-58 | the trace and the result are those of the reference definition: nothing when the credentials are missing; otherwise the full sequence up to and including the first call that throws, followed by the close when that call is the navigation or the username-field wait (then the login page is unavailable), with that call's own error, or the whole sequence and authenticated |
| GlobalSetup.UnreachedIsReference | global-setup.js:18-39 | when the login page is not reached, the reference gives exactly the actions and result of the first failing call among the launch, the page creation, the navigation and the wait |
| GlobalSetup.ReachedIsReference | global-setup.js:18-58 | when the login page is reached, the reference is the four opening actions followed by the login's, and its result is the login's |
| GlobalSetup.SkippedIff | global-setup.js:11-16 | the setup is skipped iff the credentials are missing, and then no browser action is taken |
| GlobalSetup.LaunchThenGoto | global-setup.js:18-32 | with credentials the browser is launched first, and once a page is open the login URL is visited next |
| GlobalSetup.LoginPageFailureCloses | global-setup.js:31-39 | a failing navigation or username-field wait closes the browser and returns normally with that error; the login page is reported unavailable only when the launch and the page creation succeeded and one of those two failed |
| GlobalSetup.UncaughtFailureLeavesBrowserOpen | global-setup.js:18-56 | any thrown result carries the first failing call's own error, that call being neither the navigation nor the wait, after a proper start of the full sequence that does not end in the close |
| GlobalSetup.LaunchFailuresThrow | global-setup.js:18-19 | a failure of `chromium.launch()` or of `newPage()` throws its own error, after that action alone |
| GlobalSetup.AuthenticatedIff | global-setup.js:11-58 | the setup authenticates iff the credentials are present and every call succeeds |
| GlobalSetup.AuthenticatedTrace | global-setup.js:42-58 | an authenticated setup performs the full sequence, ending in the close |
| GlobalSetup.MissingLogoutLinkThrows | global-setup.js:47 | once the login page is reached and the submission succeeds, a missing logout link throws the wait's own error |

## Left out

- **Page objects and configuration.** `pages/LoginPage.js`, `pages/RegistrationPage.js`, `pages/BillPayPage.js` and `pages/OpenNewAccountPage.js` are not part of this model: they are fixed sequences of Playwright calls with no decisions. The same goes for `playwright.config.js`, which is static configuration.
- **Browser calls.** Every browser call (`goto`, `waitForSelector`, `fill`, `click`, `selectOption`, `reload`, `screenshot`, `content` and the `expect` checks) is an outcome supplied by the caller. Their timeouts are not modelled.
- **Steps around the main decisions.** The registration, logout and login steps of the scenario (tests/parabank-cv.spec.js:44-57, 65-72) and the other page-object steps are not modelled. Nor is the click on "Find Transactions" with its account selection (l.158-163). The model keeps only the decisions around these steps.
- **Retry attempts.** One retry attempt is a single outcome: success, failure with the banner, or failure without it. A failure of the banner count itself, or of `page.reload()`, is not modelled.
- **Diagnostics and saved state.** What the diagnostics write to disk is not modelled. Neither are `fs.existsSync`/`fs.mkdirSync` (whose failure in a `catch` block would replace the original error), nor the session state that global setup writes.
- **Calls in global setup that cannot fail here.** A failure of `browser.close()` is not modelled, neither in the `catch` block (global-setup.js:37) nor at the end (l.58): the model always ends an authenticated run with CloseBrowser. Neither is a failure of `fs.existsSync` or `fs.mkdirSync` for the `.auth` folder (l.51-53), which the model does not perform.
- **Numbers.** `Date.now()` and the server's `nextAccountId` are JavaScript Numbers, which are doubles. The model treats them as unbounded natural numbers. It does not model `String(n)` switching to exponent form from 1e21, nor `nextAccountId++` having no effect above 2^53 (demo-server.js:37). No millisecond clock or demo counter reaches either limit.
- **Delays and the clock.** `setTimeout` delays are recorded as their length in milliseconds; no time passes. `Date.now()` is the parameter `t` or `now`.
- **The mock server's wiring.** Express routing, static files, the GET route for `/transfer.htm`, and `app.listen` with its port are not modelled.
- **Form fields.** A body field is absent or a string; the arrays and objects that the extended URL-encoded parser can produce are not modelled.
- **`encodeURIComponent`.** The redirects of `PostTransfer` and `PostBillPay` take it as an opaque function parameter. That it never emits '&' is a hypothesis of PostTransfer's read-back clause, not something the model proves.
- **The option count.** The destination-option count of `transferFunds` is a natural number or an error. The list of options itself is not modelled.
- **Concurrency.** Parallel workers, test-runner retries and their effect on the shared diagnostics directory are not modelled.
