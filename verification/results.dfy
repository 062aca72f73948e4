/** Failure-carrying values shared by every operation of the model.

    The Rust commands return `Result<_, String>` and the TypeScript helpers
    throw; both are modelled as a `Result` whose error is one of the kinds
    below.  The message text of each kind is a presentation detail.
 */
module Results {

  datatype Option<T> = None | Some(value: T)

  /** Why a calculation was refused. */
  datatype Error =
    // The prefix-length text is not a decimal number ("Invalid subnet mask",
    // "Invalid network bits").
    | PrefixUnreadable
    // The prefix length is outside [0, 32].
    | PrefixOutOfRange
    // The address does not have exactly four dot-separated parts.
    | WrongPartCount
    // A part of the address is not a decimal number ("Invalid IP address number").
    | OctetUnreadable
    // A part of the address is a number above 255, or (in the TypeScript
    // calculator) any unusable part.
    | OctetOutOfRange
    // The TypeScript range calculator's single "Invalid IP address format." message.
    | AddressFormat
    // A page's form was submitted with a required field left empty.
    | MissingInput
    // A requirement needs a block larger than the base network.
    | CannotAllocate(requiredHosts: nat, baseCidr: nat)
    // The same, for a VLAN.
    | CannotAllocateVlan(vlanId: nat, requiredHosts: nat, baseCidr: nat)
    // An unsigned 32-bit operation would overflow: a debug build panics there,
    // a release build silently wraps.
    | Overflow

  datatype Result<T> = Ok(value: T) | Err(error: Error) {
    predicate IsFailure() {
      Err?
    }

    function PropagateFailure<U>(): Result<U>
      requires Err?
    {
      Err(error)
    }

    function Extract(): T
      requires Ok?
    {
      value
    }
  }
}
