/** The in-memory store of the mock banking server and its POST handlers.
    The store is module-level state the handlers change in place: a map of
    registered users, the next account number to hand out, and the list of
    account numbers handed out so far. Routing, static files and body
    parsing are not modelled: a handler receives the form fields it reads,
    each absent (`undefined`) or a string, and returns the path it
    redirects to. */
module DemoServer {
  import opened Text

  datatype UserRecord = UserRecord(username: string, password: string)

  /** The first account number handed out. */
  const FirstAccountId: nat := 17895

  /** Account i (from 0) is the decimal rendering of FirstAccountId + i. */
  predicate SequentialIds(accounts: seq<string>) {
    forall i :: 0 <= i < |accounts| ==> accounts[i] == NatToString(FirstAccountId + i)
  }

  class Store {
    var users: map<string, UserRecord>
    var nextAccountId: nat
    var accounts: seq<string>

    /** Account numbers are minted in sequence from FirstAccountId, and every
        stored user is keyed by its own, non-empty, username and has a
        non-empty password. */
    ghost predicate Valid()
      reads this
    {
      && nextAccountId == FirstAccountId + |accounts|
      && SequentialIds(accounts)
      && forall u :: u in users ==> u != "" && users[u].username == u && users[u].password != ""
    }

    /** The state when the server starts. */
    constructor ()
      ensures Valid()
      ensures users == map[] && nextAccountId == FirstAccountId && accounts == []
    {
      users := map[];
      nextAccountId := FirstAccountId;
      accounts := [];
    }

    /** POST /register.htm with fields `customer.username` and `customer.password`. */
    method Register(username: Option<string>, password: Option<string>) returns (redirect: string)
      requires Valid()
      modifies this
      ensures Valid()
      ensures !Truthy(username) || !Truthy(password) ==>
                redirect == "/register.htm" && users == old(users)
      ensures Truthy(username) && Truthy(password) ==>
                redirect == "/register-success.htm" &&
                users == old(users)[username.value := UserRecord(username.value, password.value)]
      ensures nextAccountId == old(nextAccountId) && accounts == old(accounts)
    {
      if !Truthy(username) || !Truthy(password) {
        return "/register.htm";
      }
      users := users[username.value := UserRecord(username.value, password.value)];
      return "/register-success.htm";
    }

    /** POST /login.htm with fields `username` and `password`. The stored
        password is never consulted, and the store is not changed. */
    method Login(username: Option<string>, password: Option<string>) returns (redirect: string)
      ensures redirect == "/home.htm" || redirect == "/index.htm"
      // any two non-empty fields are accepted
      ensures Truthy(username) && Truthy(password) ==> redirect == "/home.htm"
      // a registered username is accepted whatever the password, even an empty or absent one
      ensures username.Some? && username.value in users ==> redirect == "/home.htm"
      ensures redirect == "/index.htm" ==>
                (username.None? || username.value !in users) && !(Truthy(username) && Truthy(password))
      // with the store's invariant: accepted iff the username is non-empty and
      // either registered or accompanied by a non-empty password
      ensures Valid() ==>
                (redirect == "/home.htm" <==> Truthy(username) && (username.value in users || Truthy(password)))
    {
      if (username.Some? && username.value in users) || (Truthy(username) && Truthy(password)) {
        return "/home.htm";
      }
      return "/index.htm";
    }

    /** POST /openaccount.htm: `String(nextAccountId++)` is appended to the
        accounts and returned in the redirect. */
    method OpenAccount() returns (redirect: string, account: string)
      requires Valid()
      modifies this
      ensures Valid()
      ensures account == NatToString(FirstAccountId + |old(accounts)|)
      ensures account == NatToString(old(nextAccountId))
      ensures account !in old(accounts)
      ensures accounts == old(accounts) + [account]
      ensures nextAccountId == old(nextAccountId) + 1
      ensures users == old(users)
      ensures redirect == "/open-account-success.htm?account=" + account
    {
      account := NatToString(nextAccountId);
      nextAccountId := nextAccountId + 1;
      NewIdIsFresh(accounts);
      accounts := accounts + [account];
      redirect := "/open-account-success.htm?account=" + account;
    }

    /** POST /transfer.htm: redirects with the submitted destination and
        amount, each passed through `encodeURIComponent` (a parameter here);
        no store state is read or changed. When the encoded destination
        holds no '&' (`encodeURIComponent` escapes it), a reader of the
        query finds the destination before the first '&' and the amount
        field after it. */
    method PostTransfer(amount: Option<string>, toAccountId: Option<string>, encode: Option<string> -> string)
      returns (redirect: string)
      ensures users == old(users) && nextAccountId == old(nextAccountId) && accounts == old(accounts)
      ensures redirect == TransferSuccessQuery + encode(toAccountId) + "&amount=" + encode(amount)
      ensures |TransferSuccessQuery| <= |redirect| && redirect[..|TransferSuccessQuery|] == TransferSuccessQuery
      ensures '&' !in encode(toAccountId) ==>
                var q := redirect[|TransferSuccessQuery|..];
                var k := IndexOf(q, '&');
                q[..k] == encode(toAccountId) && q[k..] == "&amount=" + encode(amount)
    {
      var to := encode(toAccountId);
      var q := to + "&amount=" + encode(amount);
      redirect := TransferSuccessQuery + q;
      assert redirect[|TransferSuccessQuery|..] == q;
      if '&' !in to {
        IndexOfAfterField(to, "&amount=" + encode(amount), '&');
        assert q == to + ("&amount=" + encode(amount));
      }
    }

    /** POST /billpay.htm: redirects with the submitted payee name; no store
        state is read or changed, and the whole query value is the encoded
        name. */
    method PostBillPay(payeeName: Option<string>, encode: Option<string> -> string) returns (redirect: string)
      ensures users == old(users) && nextAccountId == old(nextAccountId) && accounts == old(accounts)
      ensures redirect == BillPaySuccessQuery + encode(payeeName)
      ensures |BillPaySuccessQuery| <= |redirect| && redirect[..|BillPaySuccessQuery|] == BillPaySuccessQuery
      ensures redirect[|BillPaySuccessQuery|..] == encode(payeeName)
    {
      redirect := BillPaySuccessQuery + encode(payeeName);
    }
  }

  const TransferSuccessQuery := "/transfer-success.htm?to="
  const BillPaySuccessQuery := "/billpay-success.htm?name="

  /** Index of the first `c` in `s`, or |s| when there is none (the same
      search as `Retry.FirstSuccess` and `GlobalSetup.FirstFailure`). */
  function IndexOf(s: string, c: char): (k: nat)
    ensures k <= |s|
    ensures k < |s| ==> s[k] == c
    ensures forall j :: 0 <= j < k ==> s[j] != c
  {
    if s == [] then 0 else if s[0] == c then 0 else 1 + IndexOf(s[1..], c)
  }

  /** A field without `c`, followed by text starting with `c`, ends at that `c`. */
  lemma IndexOfAfterField(field: string, rest: string, c: char)
    requires c !in field
    requires |rest| > 0 && rest[0] == c
    ensures IndexOf(field + rest, c) == |field|
  {
    var s := field + rest;
    var k := IndexOf(s, c);
    assert s[|field|] == c;
  }

  /** Account numbers minted in sequence never repeat. */
  lemma {:induction false} SequentialIdsDistinct(accounts: seq<string>)
    requires SequentialIds(accounts)
    ensures forall i, j :: 0 <= i < j < |accounts| ==> accounts[i] != accounts[j]
  {
    forall i, j | 0 <= i < j < |accounts| ensures accounts[i] != accounts[j] {
      NatToStringInjective(FirstAccountId + i, FirstAccountId + j);
    }
  }

  /** Account numbers minted in sequence read back as strictly increasing numbers. */
  lemma {:induction false} SequentialIdsIncrease(accounts: seq<string>)
    requires SequentialIds(accounts)
    ensures forall i :: 0 <= i < |accounts| ==> ParseDecimal(accounts[i]) == FirstAccountId + i
    ensures forall i, j :: 0 <= i < j < |accounts| ==> ParseDecimal(accounts[i]) < ParseDecimal(accounts[j])
  {
    forall i | 0 <= i < |accounts| ensures ParseDecimal(accounts[i]) == FirstAccountId + i {
      ParseNatToString(FirstAccountId + i);
    }
  }

  /** The next account number is not among those already handed out. */
  lemma {:induction false} NewIdIsFresh(accounts: seq<string>)
    requires SequentialIds(accounts)
    ensures NatToString(FirstAccountId + |accounts|) !in accounts
  {
    var next := NatToString(FirstAccountId + |accounts|);
    forall i | 0 <= i < |accounts| ensures accounts[i] != next {
      NatToStringInjective(FirstAccountId + i, FirstAccountId + |accounts|);
    }
  }

  /** The first two accounts opened on a fresh server are "17895" and "17896". */
  method FirstTwoAccounts() returns (first: string, second: string)
    ensures first == "17895" && second == "17896"
  {
    var store := new Store();
    var redirect;
    redirect, first := store.OpenAccount();
    redirect, second := store.OpenAccount();
    assert NatToString(17895) == "17895";
    assert NatToString(17896) == "17896";
  }
}
