/** The plan table of src/pages/PricingPage.tsx and the decision its
    subscribe button makes before handing over to the payment dialog. */
module Pricing {
  import opened Text

  datatype Plan = Plan(name: string, price: string, priceValue: nat, period: string, buttonText: string, popular: bool)

  const Plans: seq<Plan> := [
    Plan("Basic", "Free", 0, "Forever", "Current Plan", false),
    Plan("Starter", "₹499", 499, "for 3 months", "Choose 3 Months", false),
    Plan("Pro", "₹899", 899, "for 6 months", "Choose 6 Months", false),
    Plan("Elite", "₹1499", 1499, "for 1 year", "Best Value - 1 Year", true)
  ]

  /** Four plans; only Basic is free and only Elite is marked popular. */
  lemma PlansSpec()
    ensures |Plans| == 4
    ensures forall i :: 0 <= i < 4 ==> (Plans[i].priceValue == 0 <==> Plans[i].name == "Basic")
    ensures forall i :: 0 <= i < 4 ==> (Plans[i].popular <==> Plans[i].name == "Elite")
  {
  }

  /** The signed-in user as far as checkout uses it. */
  datatype User = User(uid: string, email: Option<string>, name: Option<string>)

  /** The order document written after a successful payment. */
  datatype Order = Order(userId: string, userEmail: Option<string>, planName: string, amount: nat, status: string)

  /** The payment dialog's options: the amount is in paise. */
  datatype CheckoutOptions = CheckoutOptions(amount: nat, currency: string, description: string, prefillName: string, prefillEmail: string)

  datatype Outcome =
    | RedirectToAuth
    | RedirectToPractice
    | ScriptFailed
    | Checkout(options: CheckoutOptions, order: Order)

  /** `displayRazorpay(plan)`: the early returns, then the dialog options and
      the order the payment handler would store. `scriptLoaded` is the
      result of loading the payment script. */
  function DisplayRazorpay(user: Option<User>, plan: Plan, scriptLoaded: bool): Outcome
  {
    if user.None? then RedirectToAuth
    else if plan.priceValue == 0 then RedirectToPractice
    else if !scriptLoaded then ScriptFailed
    else
      var u := user.value;
      Checkout(
        CheckoutOptions(plan.priceValue * 100, "INR", "Subscription for " + plan.name + " Plan",
          if Truthy(u.name) then u.name.value else "",
          if Truthy(u.email) then u.email.value else ""),
        Order(u.uid, u.email, plan.name + " (" + plan.period + ")", plan.priceValue, "active"))
  }

  /** Nobody reaches the checkout signed out, nor for a free plan; the
      charged amount in paise is 100 times the stored rupee amount, which is
      the plan's price. */
  lemma DisplayRazorpaySpec(user: Option<User>, plan: Plan, scriptLoaded: bool)
    ensures user.None? ==> DisplayRazorpay(user, plan, scriptLoaded) == RedirectToAuth
    ensures user.Some? && plan.priceValue == 0 ==> DisplayRazorpay(user, plan, scriptLoaded) == RedirectToPractice
    ensures DisplayRazorpay(user, plan, scriptLoaded).Checkout? <==> user.Some? && plan.priceValue > 0 && scriptLoaded
    ensures var r := DisplayRazorpay(user, plan, scriptLoaded);
      r.Checkout? ==>
        && r.options.amount == r.order.amount * 100
        && r.order.amount == plan.priceValue > 0
        && r.order.planName == plan.name + " (" + plan.period + ")"
        && r.order.userId == user.value.uid
  {
  }

  /** The Basic plan never opens a checkout, and the Elite plan charges
      149900 paise. */
  lemma PlanCheckoutExamples(user: User)
    ensures !DisplayRazorpay(Some(user), Plans[0], true).Checkout?
    ensures DisplayRazorpay(Some(user), Plans[3], true).options.amount == 149900
    ensures DisplayRazorpay(Some(user), Plans[3], true).order.planName == "Elite (for 1 year)"
  {
  }
}
