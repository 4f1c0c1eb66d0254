/** The Transfer Funds page object: `transferFunds(amount, toAccount)`
    fills the amount, picks a destination account and clicks Transfer,
    capturing diagnostics and rethrowing on any failure after the amount
    is filled. Every awaited page call is an outcome supplied by the
    caller; the method returns the page actions it performed, in order. */
module TransferPage {
  import opened Text

  /** The outcome of one awaited page call (global setup has a twin of this
      type, `GlobalSetup.Call`). */
  datatype Call = Ok | Throws(err: string)

  /** The outcome of counting the `<option>` elements of `#toAccountId`. */
  datatype Count = Counted(n: nat) | CountFailed(err: string)

  /** What the browser does on each call transferFunds makes. The outcomes
      of the screenshot and of reading the page's HTML are not listed:
      their failures are swallowed and change nothing. */
  datatype PageOutcomes = PageOutcomes(fill: Call, options: Count, selectValue: Call, selectIndex: Call, click: Call)

  datatype Action =
    | FillAmount(amount: string)
    | CountOptions
    | SelectValue(value: string)
    | SelectIndex(index: nat)
    | ClickTransfer
    | CaptureScreenshot
    | CaptureHtml

  /** An error thrown inside transferFunds: the explicit "no options" error,
      or one raised by a page call (carrying that call's message). */
  datatype Error = NoOptions | Raised(msg: string)

  /** The message of an error, as the test report shows it. */
  function Message(e: Error): string {
    match e
    case NoOptions => "No options available in toAccount select"
    case Raised(msg) => msg
  }

  datatype Result = Done | Failed(err: Error)

  /** `optionCount > 1 ? 1 : 0`: the first option after the placeholder at
      index 0, or the only option there is. */
  function FallbackIndex(optionCount: nat): (i: nat)
    ensures i <= 1
    ensures optionCount >= 1 ==> i < optionCount
    ensures optionCount >= 2 ==> i == 1
  {
    if optionCount > 1 then 1 else 0
  }

  /** Whether the requested account was selected (the selection is tried only
      for a truthy `toAccount`, and its failure is caught and turned into null). */
  predicate RequestedSelected(toAccount: Option<string>, o: PageOutcomes) {
    Truthy(toAccount) && o.selectValue.Ok?
  }

  /** Whether a destination account ends up selected, so that the button is
      clicked: there are options and either the requested one or the
      fallback was selected. */
  predicate Selected(toAccount: Option<string>, o: PageOutcomes) {
    o.options.Counted? && o.options.n > 0 && (RequestedSelected(toAccount, o) || o.selectIndex.Ok?)
  }

  // ---------------------------------------------------------------------
  // The reference behaviour: which actions are taken and which error is
  // raised, decided case by case from the outcomes.

  /** The selections tried once there are `n > 0` options: the requested value
      when there is one, then the fallback index unless the requested value
      was selected. */
  function TargetSelections(toAccount: Option<string>, n: nat, o: PageOutcomes): seq<Action> {
    (if Truthy(toAccount) then [SelectValue(toAccount.value)] else []) +
    (if RequestedSelected(toAccount, o) then [] else [SelectIndex(FallbackIndex(n))])
  }

  /** The error raised inside the `try` block, if any. */
  function TryError(toAccount: Option<string>, o: PageOutcomes): Option<Error> {
    match o.options
    case CountFailed(e) => Some(Raised(e))
    case Counted(n) =>
      if n == 0 then Some(NoOptions)
      else if !RequestedSelected(toAccount, o) && o.selectIndex.Throws? then Some(Raised(o.selectIndex.err))
      else if o.click.Throws? then Some(Raised(o.click.err))
      else None
  }

  /** The actions taken inside the `try` block. */
  function TryActions(toAccount: Option<string>, o: PageOutcomes): seq<Action> {
    [CountOptions] +
    (if o.options.Counted? && o.options.n > 0
     then TargetSelections(toAccount, o.options.n, o) + (if Selected(toAccount, o) then [ClickTransfer] else [])
     else [])
  }

  /** All actions of `transferFunds`: the fill, then (if it succeeded) the
      `try` block, then the diagnostics of the `catch` block if that raised. */
  function TransferTrace(amount: string, toAccount: Option<string>, o: PageOutcomes): seq<Action> {
    [FillAmount(amount)] +
    (if o.fill.Throws? then []
     else TryActions(toAccount, o) + (if TryError(toAccount, o).Some? then [CaptureScreenshot, CaptureHtml] else []))
  }

  /** How `transferFunds` ends: the fill's error, the error rethrown by the
      `catch` block, or normally. */
  function TransferResult(toAccount: Option<string>, o: PageOutcomes): Result {
    if o.fill.Throws? then Failed(Raised(o.fill.err))
    else match TryError(toAccount, o)
      case Some(e) => Failed(e)
      case None => Done
  }

  // ---------------------------------------------------------------------
  // The page object's method.

  /** Choosing the target, once there is at least one option: the requested
      value first, and the fallback index only when there is no requested
      value or its selection failed (`.catch(() => null)` turns that failure
      into a null result rather than an error). */
  method ChooseTarget(toAccount: Option<string>, optionCount: nat, o: PageOutcomes)
    returns (selection: seq<Action>, caught: Option<Error>)
    requires optionCount > 0
    ensures selection == TargetSelections(toAccount, optionCount, o)
    ensures caught == if !RequestedSelected(toAccount, o) && o.selectIndex.Throws? then Some(Raised(o.selectIndex.err)) else None
  {
    selection := [];
    caught := None;
    var selected := false;
    if Truthy(toAccount) {
      selection := [SelectValue(toAccount.value)];
      selected := o.selectValue.Ok?;
    }
    if !selected {
      selection := selection + [SelectIndex(FallbackIndex(optionCount))];
      if o.selectIndex.Throws? {
        caught := Some(Raised(o.selectIndex.err));
      }
    }
  }

  /** The body of the `try` block: count the options, select a target,
      click Transfer. Returns the actions taken and the error raised, if any. */
  method SelectAndClick(toAccount: Option<string>, o: PageOutcomes)
    returns (steps: seq<Action>, caught: Option<Error>)
    ensures steps == TryActions(toAccount, o)
    ensures caught == TryError(toAccount, o)
  {
    match o.options {
      case CountFailed(e) =>
        steps, caught := [CountOptions], Some(Raised(e));
      case Counted(optionCount) =>
        if optionCount == 0 {
          steps, caught := [CountOptions], Some(NoOptions);
        } else {
          var selection;
          selection, caught := ChooseTarget(toAccount, optionCount, o);
          var click: seq<Action> := [];
          if caught.None? {
            click := [ClickTransfer];
            if o.click.Throws? {
              caught := Some(Raised(o.click.err));
            }
          }
          steps := [CountOptions] + selection + click;
        }
    }
  }

  /** `transferFunds(amount, toAccount)`. */
  method TransferFunds(amount: string, toAccount: Option<string>, o: PageOutcomes)
    returns (trace: seq<Action>, result: Result)
    ensures trace == TransferTrace(amount, toAccount, o)
    ensures result == TransferResult(toAccount, o)
  {
    trace := [FillAmount(amount)];
    if o.fill.Throws? {
      result := Failed(Raised(o.fill.err));
      return;
    }
    var steps, caught := SelectAndClick(toAccount, o);
    // catch (err) { diagnostics; throw err; }
    if caught.Some? {
      trace := trace + steps + [CaptureScreenshot, CaptureHtml];
      result := Failed(caught.value);
    } else {
      trace := trace + steps;
      result := Done;
    }
  }

  // ---------------------------------------------------------------------
  // What the reference behaviour guarantees.

  /** The amount is filled first, outside the `try` block: its failure
      propagates at once, without diagnostics. */
  lemma FillComesFirst(amount: string, toAccount: Option<string>, o: PageOutcomes)
    ensures var trace := TransferTrace(amount, toAccount, o);
              && |trace| >= 1 && trace[0] == FillAmount(amount)
              && (o.fill.Throws? ==> trace == [FillAmount(amount)] && TransferResult(toAccount, o) == Failed(Raised(o.fill.err)))
              && (o.fill.Ok? ==> |trace| >= 2 && trace[1] == CountOptions)
  {
  }

  /** No options: the explicit error, nothing selected, never clicked. */
  lemma NoOptionsFails(amount: string, toAccount: Option<string>, o: PageOutcomes)
    requires o.fill.Ok? && o.options == Counted(0)
    ensures TransferResult(toAccount, o) == Failed(NoOptions)
    ensures Message(NoOptions) == "No options available in toAccount select"
    ensures TransferTrace(amount, toAccount, o) == [FillAmount(amount), CountOptions, CaptureScreenshot, CaptureHtml]
  {
  }

  /** The number of clicks on Transfer in a trace. */
  function Clicks(t: seq<Action>): nat
    decreases |t|
  {
    if t == [] then 0 else Clicks(t[..|t| - 1]) + (if t[|t| - 1] == ClickTransfer then 1 else 0)
  }

  lemma {:induction false} ClicksAppend(a: seq<Action>, b: seq<Action>)
    ensures Clicks(a + b) == Clicks(a) + Clicks(b)
    decreases |b|
  {
    if b == [] {
      assert a + b == a;
    } else {
      assert (a + b)[..|a + b| - 1] == a + b[..|b| - 1];
      ClicksAppend(a, b[..|b| - 1]);
    }
  }

  /** A trace without a click on Transfer. */
  lemma {:induction false} NoClicks(t: seq<Action>)
    requires forall i :: 0 <= i < |t| ==> t[i] != ClickTransfer
    ensures Clicks(t) == 0
    decreases |t|
  {
    if t != [] {
      NoClicks(t[..|t| - 1]);
    }
  }

  /** The clicks of a counted `try` block are those of its selections and of
      its click step. */
  lemma ClicksAfterCount(sel: seq<Action>, click: seq<Action>)
    ensures Clicks([CountOptions] + (sel + click)) == Clicks(sel) + Clicks(click)
  {
    NoClicks([CountOptions]);
    ClicksAppend(sel, click);
    ClicksAppend([CountOptions], sel + click);
  }

  /** A single click on Transfer. */
  lemma ClicksOfClick()
    ensures Clicks([ClickTransfer]) == 1
  {
    assert [ClickTransfer][..0] == [];
  }

  /** The `try` block clicks once when a target was selected, and never otherwise. */
  lemma {:induction false} TryClicks(toAccount: Option<string>, o: PageOutcomes)
    ensures Clicks(TryActions(toAccount, o)) == if Selected(toAccount, o) then 1 else 0
  {
    if o.options.Counted? && o.options.n > 0 {
      var sel := TargetSelections(toAccount, o.options.n, o);
      var click: seq<Action> := if Selected(toAccount, o) then [ClickTransfer] else [];
      assert TryActions(toAccount, o) == [CountOptions] + (sel + click);
      ClicksAfterCount(sel, click);
      SelectionsHaveNoClick(toAccount, o.options.n, o);
      ClicksOfClick();
    } else {
      NoClicks([CountOptions]);
    }
  }

  /** Selecting a target never clicks. */
  lemma {:induction false} SelectionsHaveNoClick(toAccount: Option<string>, n: nat, o: PageOutcomes)
    ensures Clicks(TargetSelections(toAccount, n, o)) == 0
  {
    var sel := TargetSelections(toAccount, n, o);
    var i := FallbackIndex(n);
    if Truthy(toAccount) {
      if RequestedSelected(toAccount, o) {
        assert sel == [SelectValue(toAccount.value)];
      } else {
        assert sel == [SelectValue(toAccount.value), SelectIndex(i)];
      }
    } else {
      assert sel == [SelectIndex(i)];
    }
    NoClicks(sel);
  }

  /** The button is clicked at most once, and exactly when a target was selected. */
  lemma {:induction false} ClickedOnceIffSelected(amount: string, toAccount: Option<string>, o: PageOutcomes)
    ensures Clicks(TransferTrace(amount, toAccount, o)) == if o.fill.Ok? && Selected(toAccount, o) then 1 else 0
  {
    var fill := [FillAmount(amount)];
    NoClicks(fill);
    if o.fill.Throws? {
      assert TransferTrace(amount, toAccount, o) == fill;
    } else {
      var try := TryActions(toAccount, o);
      var diag: seq<Action> := if TryError(toAccount, o).Some? then [CaptureScreenshot, CaptureHtml] else [];
      NoClicks(diag);
      TryClicks(toAccount, o);
      assert TransferTrace(amount, toAccount, o) == fill + (try + diag);
      ClicksAppend(try, diag);
      ClicksAppend(fill, try + diag);
    }
  }

  /** Success exactly when the fill succeeded, a target was selected and the
      click succeeded; then the click ends the trace, right after a selection. */
  lemma DoneIff(amount: string, toAccount: Option<string>, o: PageOutcomes)
    ensures TransferResult(toAccount, o) == Done <==> o.fill.Ok? && Selected(toAccount, o) && o.click.Ok?
    ensures TransferResult(toAccount, o) == Done ==>
              var t := TransferTrace(amount, toAccount, o);
              && |t| >= 4 && t[|t| - 1] == ClickTransfer
              && (t[|t| - 2].SelectValue? || t[|t| - 2].SelectIndex?)
  {
  }

  /** A failure inside the `try` block captures the diagnostics and rethrows
      the error raised there, unchanged. */
  lemma FailureCapturesDiagnostics(amount: string, toAccount: Option<string>, o: PageOutcomes)
    requires o.fill.Ok?
    ensures TransferResult(toAccount, o).Failed? ==>
              var t := TransferTrace(amount, toAccount, o);
              |t| >= 4 && t[|t| - 2..] == [CaptureScreenshot, CaptureHtml]
    ensures o.options.CountFailed? ==> TransferResult(toAccount, o) == Failed(Raised(o.options.err))
    ensures o.options.Counted? && o.options.n > 0 && !RequestedSelected(toAccount, o) && o.selectIndex.Throws? ==>
              TransferResult(toAccount, o) == Failed(Raised(o.selectIndex.err))
    ensures Selected(toAccount, o) && o.click.Throws? ==> TransferResult(toAccount, o) == Failed(Raised(o.click.err))
  {
  }

  /** The requested account is tried first; the fallback is used only when it
      was absent or could not be selected, and it is always a valid index. */
  lemma {:induction false} TargetChoice(amount: string, toAccount: Option<string>, o: PageOutcomes)
    requires o.fill.Ok? && o.options.Counted? && o.options.n > 0
    ensures var t := TransferTrace(amount, toAccount, o);
              && (Truthy(toAccount) ==> |t| >= 3 && t[2] == SelectValue(toAccount.value))
              && (RequestedSelected(toAccount, o) ==> forall i :: 0 <= i < |t| ==> !t[i].SelectIndex?)
              && (!RequestedSelected(toAccount, o) ==> SelectIndex(FallbackIndex(o.options.n)) in t)
              && (forall i :: 0 <= i < |t| && t[i].SelectIndex? ==> t[i].index == FallbackIndex(o.options.n) < o.options.n)
  {
    var t := TransferTrace(amount, toAccount, o);
    var n := o.options.n;
    var sel := TargetSelections(toAccount, n, o);
    var tail := (if Selected(toAccount, o) then [ClickTransfer] else []) +
                (if TryError(toAccount, o).Some? then [CaptureScreenshot, CaptureHtml] else []);
    assert t == [FillAmount(amount), CountOptions] + sel + tail;
    assert forall i :: 2 <= i < 2 + |sel| ==> t[i] == sel[i - 2];
    assert forall i :: 2 + |sel| <= i < |t| ==> t[i] == tail[i - 2 - |sel|];
    assert forall i :: 0 <= i < |tail| ==> !tail[i].SelectIndex?;
  }
}
