/** The confirmation and retry primitives of the utility package. The file
    that implements them, utility/flow_utility.go, is not part of this model.
    The package's test pins down the cases below; beyond them the
    definitions are assumptions: unanimous success on `n` probes, stopping
    at the first failure, and any success within `n` attempts, stopping at
    the first success. The sleeping interval between calls is left out.
    The callback is given by its answers: `answers(k)` is what it returns on
    its (k+1)-th call. */
module FlowUtility {

  /** What a primitive returned, and how many times it called its callback. */
  datatype Run = Run(result: bool, calls: nat)

  /** Confirmation from the (k+1)-th probe on. */
  function ConfirmFrom(n: nat, answers: nat -> bool, k: nat): (r: Run)
    requires k <= n
    ensures k <= r.calls <= n
    ensures r.result <==> forall j :: k <= j < n ==> answers(j)
    ensures r.result ==> r.calls == n
    ensures !r.result ==> k < r.calls && !answers(r.calls - 1)
    ensures forall j :: k <= j < r.calls - 1 ==> answers(j)
    decreases n - k
  {
    if k == n then Run(true, n)
    else if !answers(k) then Run(false, k + 1)
    else ConfirmFrom(n, answers, k + 1)
  }

  /** MultipleConfirm: true iff the predicate holds on all `n` probes. */
  function MultipleConfirm(n: nat, answers: nat -> bool): (r: Run)
    ensures r.calls <= n
    ensures r.result <==> forall j :: 0 <= j < n ==> answers(j)
    ensures r.result ==> r.calls == n
    ensures !r.result ==> 0 < r.calls && !answers(r.calls - 1)
    ensures forall j :: 0 <= j < r.calls - 1 ==> answers(j)
  {
    ConfirmFrom(n, answers, 0)
  }

  /** Retrying from the (k+1)-th attempt on. */
  function RetryFrom(n: nat, answers: nat -> bool, k: nat): (r: Run)
    requires k <= n
    ensures k <= r.calls <= n
    ensures r.result <==> exists j :: k <= j < n && answers(j)
    ensures r.result ==> k < r.calls && answers(r.calls - 1)
    ensures !r.result ==> r.calls == n
    ensures forall j :: k <= j < r.calls - 1 ==> !answers(j)
    decreases n - k
  {
    if k == n then Run(false, n)
    else if answers(k) then Run(true, k + 1)
    else RetryFrom(n, answers, k + 1)
  }

  /** RunUntilSuccess: true iff one of at most `n` attempts succeeds; it stops
      at the first success. */
  function RunUntilSuccess(n: nat, answers: nat -> bool): (r: Run)
    ensures r.calls <= n
    ensures r.result <==> exists j :: 0 <= j < n && answers(j)
    ensures r.result ==> 0 < r.calls && answers(r.calls - 1)
    ensures !r.result ==> r.calls == n
    ensures forall j :: 0 <= j < r.calls - 1 ==> !answers(j)
  {
    RetryFrom(n, answers, 0)
  }

  /** The callback with every answer negated. */
  function Negated(answers: nat -> bool): (neg: nat -> bool)
    ensures forall k :: neg(k) == !answers(k)
  {
    (k: nat) => !answers(k)
  }

  /** Confirmation and retry are duals: confirming `p` fails exactly when
      retrying its negation succeeds, after the same number of calls. */
  lemma {:induction false} ConfirmRetryDual(n: nat, answers: nat -> bool, k: nat)
    requires k <= n
    ensures var c, r := ConfirmFrom(n, answers, k), RetryFrom(n, Negated(answers), k);
      c.result == !r.result && c.calls == r.calls
    decreases n - k
  {
    if k < n && answers(k) {
      ConfirmRetryDual(n, answers, k + 1);
    }
  }

  /** An always-true predicate is probed exactly three times. */
  lemma ConfirmAlwaysTrue()
    ensures MultipleConfirm(3, _ => true) == Run(true, 3)
  {
  }

  /** An always-false predicate is not confirmed; it is probed once. */
  lemma ConfirmAlwaysFalse()
    ensures MultipleConfirm(3, _ => false) == Run(false, 1)
  {
  }

  /** A callback that first succeeds on its sixth call is given up on after three. */
  lemma RetryLateSuccess()
    ensures RunUntilSuccess(3, k => k + 1 > 5) == Run(false, 3)
  {
  }

  /** A callback that first succeeds on its third call succeeds within three. */
  lemma RetryThirdCallSuccess()
    ensures RunUntilSuccess(3, k => k + 1 > 2) == Run(true, 3)
  {
    assert (k => k + 1 > 2)(2);
  }
}
