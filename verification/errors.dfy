/** The exceptions the modelled Python code raises, as values. */
module Errors {

  /** The four taxonomy tables a PLDS code refers to. */
  datatype Category = Parts | Locations | DamageTypes | Severities

  /** Why a `ValueError` was raised. */
  datatype ValueReason =
    | WrongComponentCount   // `create_from`: not 3 or 4 `->`-separated components
    | NotAnInteger          // `int()` rejected a component
    | RelatedNotFound(category: Category)  // `create_from`: a referenced taxonomy row is missing

  datatype Error =
    | ValueError(reason: ValueReason)
    | RowDoesNotExist(category: Category)   // a taxonomy `DoesNotExist`
    | PldsDoesNotExist                      // `PLDS.DoesNotExist` from `get`
    | AttributeError                        // attribute read on the wrong kind of value
    | KeyError                              // missing dictionary key
    | TypeError                             // subscript of a value that is not a dictionary
    | NotImplementedError
    | IntegrityError                        // an INSERT refused by a key or unique column
}
