/**
 The add-expense form as a state machine. The state is the five fields the
 screen keeps; editing, picking, toggling and Reset change them; Add leaves
 them alone and answers with the effects it causes, in order: an alert, or an
 optional recurring-expense record, the expense insert, and the navigation
 back to the previous screen.
 */
module AddExpenseForm {
  import opened Wrappers

  /** A point in time, as a JavaScript `Date` holds it. */
  type Instant = int

  /** The choices of the interval picker. */
  datatype Interval = Daily | Weekly | Monthly | Yearly

  function Label(i: Interval): string {
    match i
    case Daily => "Daily"
    case Weekly => "Weekly"
    case Monthly => "Monthly"
    case Yearly => "Yearly"
  }

  predicate IsIntervalLabel(s: string) {
    s == "Daily" || s == "Weekly" || s == "Monthly" || s == "Yearly"
  }

  /** Add compares Name and Amount with null, so they may be absent here. */
  datatype Form = Form(
    name: Option<string>,
    amount: Option<string>,
    category: string,
    recurring: bool,
    interval: string)

  const Initial: Form := Form(Some(""), Some(""), "", false, "")

  datatype RecurringExpense = RecurringExpense(
    name: string,
    amount: string,
    category: string,
    interval: string,
    recurrenceDate: Instant)

  datatype Effect =
    | ShowAlert(message: string)
    | SaveRecurring(expense: RecurringExpense)
    | InsertExpense(name: string, amount: string, category: string)
    | GoBack

  const MissingInformation: string := "Please enter all the information properly."
  const ImproperAmount: string := "Please enter proper amount."

  /**
   What Add consults besides the form: the current time, the recurrence-date
   calculator, and JavaScript's loose `Amount < 0` on the amount text.
   */
  datatype Env = Env(
    now: Instant,
    recurringDate: (string, Instant) -> Instant,
    isNegative: string -> bool)

  /** The presence guard: a non-empty, non-null name, a non-null amount, a non-empty category. */
  predicate Complete(f: Form) {
    !(f.name == Some("") || f.name.None? || f.amount.None? || f.category == "")
  }

  predicate Accepted(f: Form, env: Env) {
    Complete(f) && !env.isNegative(f.amount.value)
  }

  predicate IsWrite(e: Effect) {
    e.SaveRecurring? || e.InsertExpense?
  }

  function CountInserts(effects: seq<Effect>): nat
    decreases |effects|
  {
    if |effects| == 0 then 0
    else (if effects[0].InsertExpense? then 1 else 0) + CountInserts(effects[1..])
  }

  predicate HasRecurring(effects: seq<Effect>) {
    exists i :: 0 <= i < |effects| && effects[i].SaveRecurring?
  }

  // ---------------------------------------------------------------------------
  // Transitions

  /** Reset clears the three text fields; the recurrence switch and interval stay. */
  function Reset(f: Form): (r: Form)
    ensures r.name == Some("") && r.amount == Some("") && r.category == ""
    ensures r.recurring == f.recurring && r.interval == f.interval
    ensures !Complete(r)
  {
    f.(name := Some(""), amount := Some(""), category := "")
  }

  /** Flipping the switch; the effect that follows sets the interval from the new switch value. */
  function Toggle(f: Form): (r: Form)
    ensures r.recurring != f.recurring
    ensures r.recurring ==> r.interval == "Daily"
    ensures !r.recurring ==> r.interval == ""
    ensures r.name == f.name && r.amount == f.amount && r.category == f.category
  {
    var on := !f.recurring;
    f.(recurring := on, interval := if on then "Daily" else "")
  }

  /** Add: validate, then write and leave, or alert and stay. */
  function Add(f: Form, env: Env): (effects: seq<Effect>)
    ensures 1 <= |effects|
    ensures !Complete(f) ==> effects == [ShowAlert(MissingInformation)]
    ensures Complete(f) && env.isNegative(f.amount.value) ==> effects == [ShowAlert(ImproperAmount)]
    ensures forall i :: 0 <= i < |effects| && effects[i].ShowAlert? ==> |effects| == 1
    ensures (forall i :: 0 <= i < |effects| ==> !IsWrite(effects[i]) && effects[i] != GoBack) <==> !Accepted(f, env)
    ensures Accepted(f, env) ==>
      && 2 <= |effects|
      && effects[|effects| - 1] == GoBack
      && CountInserts(effects) == 1
      && effects[|effects| - 2] == InsertExpense(f.name.value, f.amount.value, f.category)
    ensures Accepted(f, env) ==> |effects| == (if f.recurring then 3 else 2)
    ensures HasRecurring(effects) <==> Accepted(f, env) && f.recurring
    ensures forall i, j ::
      (0 <= i < |effects| && 0 <= j < |effects| && effects[i].SaveRecurring? && effects[j].InsertExpense?)
      ==> i < j
    ensures forall i :: 0 <= i < |effects| && effects[i].SaveRecurring? ==>
      effects[i].expense == RecurringExpense(f.name.value, f.amount.value, f.category,
        f.interval, env.recurringDate(f.interval, env.now))
  {
    if !Complete(f) then [ShowAlert(MissingInformation)]
    else if env.isNegative(f.amount.value) then [ShowAlert(ImproperAmount)]
    else
      var name, amount, category := f.name.value, f.amount.value, f.category;
      var recurring :=
        if f.recurring
        then [SaveRecurring(RecurringExpense(name, amount, category, f.interval,
                env.recurringDate(f.interval, env.now)))]
        else [];
      assert CountInserts([GoBack]) == 0;
      assert CountInserts([InsertExpense(name, amount, category), GoBack]) == 1;
      assert (recurring + [InsertExpense(name, amount, category), GoBack])[|recurring|..]
        == [InsertExpense(name, amount, category), GoBack];
      recurring + [InsertExpense(name, amount, category), GoBack]
  }

  // ---------------------------------------------------------------------------
  // The form over a session of edits

  datatype Event =
    | EditName(text: string)
    | EditAmount(text: string)
    | PickCategory(value: string)
    | PickInterval(choice: Interval)
    | ToggleRecurring
    | PressReset

  /**
   A reachable form: the text inputs always hold a string, and the interval is
   a picker label exactly while the switch is on, empty otherwise.
   */
  predicate Consistent(f: Form) {
    && f.name.Some?
    && f.amount.Some?
    && (if f.recurring then IsIntervalLabel(f.interval) else f.interval == "")
  }

  /** One user action. The interval picker is only on screen while the switch is on. */
  function Apply(f: Form, e: Event): (r: Form)
    ensures Consistent(f) ==> Consistent(r)
  {
    match e
    case EditName(text) => f.(name := Some(text))
    case EditAmount(text) => f.(amount := Some(text))
    case PickCategory(value) => f.(category := value)
    case PickInterval(choice) => if f.recurring then f.(interval := Label(choice)) else f
    case ToggleRecurring => Toggle(f)
    case PressReset => Reset(f)
  }

  /** The form after a session of user actions, first action first; a consistent form stays consistent. */
  function Run(f: Form, events: seq<Event>): (r: Form)
    ensures Consistent(f) ==> Consistent(r)
    decreases |events|
  {
    if |events| == 0 then f else Run(Apply(f, events[0]), events[1..])
  }

  /**
   From the opening form, whatever the user did, a recurring record Add writes
   carries one of the four picker labels, never the empty interval.
   */
  lemma ReachableRecurringHasLabel(events: seq<Event>, env: Env)
    ensures var effects := Add(Run(Initial, events), env);
      forall i :: 0 <= i < |effects| && effects[i].SaveRecurring? ==>
        IsIntervalLabel(effects[i].expense.interval)
  {
  }

  /** Toggling off and on again drops an earlier interval choice in favour of "Daily". */
  lemma ToggleTwiceDropsChoice(f: Form)
    ensures Toggle(Toggle(f)) == f.(interval := if f.recurring then "Daily" else "")
  {
  }

  /** Add right after Reset only alerts. */
  lemma AddAfterReset(f: Form, env: Env)
    ensures Add(Reset(f), env) == [ShowAlert(MissingInformation)]
  {
  }

  /**
   The presence guard looks at the amount only for null: an empty amount text
   passes it, and unless `"" < 0` were true the row is inserted with it.
   */
  lemma EmptyAmountPassesGuard(f: Form, env: Env)
    requires f.name.Some? && f.name.value != "" && f.category != "" && f.amount == Some("")
    ensures Complete(f)
    ensures !env.isNegative("") ==> InsertExpense(f.name.value, "", f.category) in Add(f, env)
  {
  }
}
