/** Python exceptions raised by the modelled code, and the values that carry them. */
module Results {

  /** The exceptions the modelled code can raise. */
  datatype Error =
    | ValueError      // datetime.date(...) given an out-of-range field
    | OverflowError   // a date moved past datetime.MAXYEAR
    | AttributeError  // a method called on None (a missing regex match or page element)
    | IndexError      // a list index out of range
    | MetadataError   // the rating/description lookup failed

  datatype Result<+T> = Ok(value: T) | Err(error: Error)

  datatype Option<+T> = None | Some(value: T)
}
