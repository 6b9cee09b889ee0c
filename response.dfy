/**
 * The read-only views of a management operation's response: whether it
 * failed, and the text describing the failure. The key names are those of
 * the WildFly management protocol: `outcome`, `success`, `failure-description`.
 */
module Response {
  import opened Wrappers
  import opened Values
  import opened Children
  import opened Coercion

  const OutcomeKey := "outcome"
  const Success := "success"
  const FailureDescriptionKey := "failure-description"
  const NoFailureDescription := "No failure-description provided"

  /** `isFailure()`: there is a defined outcome and its text is not `success`. */
  predicate IsFailure(v: Value, conv: Conversions)
    ensures IsFailure(v, conv) ==> v.ObjectValue? || (v.PropertyValue? && v.name == OutcomeKey)
  {
    HasDefined(v, OutcomeKey) && AsString(ChildNamed(v, OutcomeKey).value.value, conv) != Success
  }

  /**
   * `getFailureDescription()`: the multi-line (non-compact) JSON text of a defined
   * `failure-description` child, and a fixed message otherwise. The JSON
   * writer is a parameter.
   */
  function FailureDescription(v: Value, json: Value -> string): (r: string)
    ensures !HasDefined(v, FailureDescriptionKey) ==> r == NoFailureDescription
    ensures HasDefined(v, FailureDescriptionKey) ==> r == json(ChildNamed(v, FailureDescriptionKey).value.value)
  {
    if HasDefined(v, FailureDescriptionKey) then json(ChildNamed(v, FailureDescriptionKey).value.value)
    else NoFailureDescription
  }

  /** A response whose outcome is the string `success`, or that has no defined outcome, is not a failure. */
  lemma SuccessIsNotFailure(es: seq<Entry>, conv: Conversions)
    requires Lookup(es, OutcomeKey).Some? ==> Lookup(es, OutcomeKey).value.value in {StringValue(Success), UndefinedValue}
    ensures !IsFailure(ObjectValue(es), conv)
  {
  }

  /** An outcome string other than `success` makes the response a failure, wherever the entry sits. */
  lemma OtherOutcomeIsFailure(es: seq<Entry>, i: int, outcome: string, conv: Conversions)
    requires UniqueKeys(es) && 0 <= i < |es|
    requires es[i].key == OutcomeKey && es[i].node.value == StringValue(outcome) && outcome != Success
    ensures IsFailure(ObjectValue(es), conv)
  {
    LookupUnique(es, i);
  }

  /** A scalar or a list has no named children: it is never a failure and has no description. */
  lemma NoChildrenNoFailure(v: Value, conv: Conversions, json: Value -> string)
    requires !v.ObjectValue? && !v.PropertyValue?
    ensures !IsFailure(v, conv) && FailureDescription(v, json) == NoFailureDescription
  {
  }
}
