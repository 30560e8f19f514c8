/** Failure values for the operations of the ordered set.

    The ordered set reports failure with Python exceptions; the model returns
    them as values instead, so that every error path can be stated and proved.
 */
module Wrappers {

  /** The exceptions the ordered set raises.
      - KeyError: `index` of an absent key, `remove` of an absent key, `pop` of an empty set.
      - IndexError: positional access outside the list of items.
      - TypeError: `difference` called with no argument at all. */
  datatype Error = KeyError | IndexError | TypeError

  datatype Option<+T> = None | Some(value: T)

  datatype Result<+T> = Ok(value: T) | Err(error: Error)
}
