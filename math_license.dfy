/** The licence attestation of the expression library (mXParser's `License`): each call to
    `iConfirmCommercialUse` or `iConfirmNonCommercialUse` is recorded, in order. */
module MathLicense {

  /** The two kinds of use a licence can confirm. */
  datatype Use = Commercial | NonCommercial

  /** One confirmation: which use, and the author who confirmed it. */
  datatype Confirmation = Confirmation(use: Use, author: string)

  class License {
    /** Every confirmation made so far, oldest first. */
    var confirmations: seq<Confirmation>

    constructor()
      ensures confirmations == []
    {
      confirmations := [];
    }

    /** `License.iConfirmCommercialUse(author)`. */
    method ConfirmCommercialUse(author: string)
      modifies this
      ensures confirmations == old(confirmations) + [Confirmation(Commercial, author)]
    {
      confirmations := confirmations + [Confirmation(Commercial, author)];
    }

    /** `License.iConfirmNonCommercialUse(author)`. */
    method ConfirmNonCommercialUse(author: string)
      modifies this
      ensures confirmations == old(confirmations) + [Confirmation(NonCommercial, author)]
    {
      confirmations := confirmations + [Confirmation(NonCommercial, author)];
    }
  }
}
