/** Failure-carrying result types shared by every part of the OMCI model,
    and the failures the Python code signals by raising an exception. */
module Wrappers {

  datatype Option<+T> = None | Some(value: T)

  datatype Result<+T, +E> = Ok(value: T) | Err(error: E)

  /** Each case names the exception the source raises at that point. */
  datatype OmciError =
    /** struct.error: fewer bytes remain than a fixed-width field needs */
    | Truncated
    /** struct.error on encode: the value does not fit the field */
    | Unencodable(name: string)
    /** AssertionError in EntityClass.__init__: a keyword that is no attribute */
    | NotAnAttribute(name: string)
    /** KeyError in mask_for: an attribute name the entity class lacks */
    | UnknownAttributeName(name: string)
    /** ValueError in mask_for: 1 << (16 - index) with index > 16 */
    | NegativeShiftCount(index: int)
    /** IndexError: a selected index beyond the attribute table */
    | NoSuchAttribute(index: int)
    /** OmciUninitializedFieldError raised by serialize */
    | UninitializedField(name: string)
    /** KeyError in OMCIData.addfield: the value dict lacks a selected name */
    | MissingValue(name: string)
    /** no registered entity class for the message's entity_class */
    | UnknownEntityClass
    /** the message's attributes_mask is not an integer (None) */
    | MaskNotSet
}
