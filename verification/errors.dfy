/** The exceptions the node's core can raise, as values. */
module Errors {

  datatype Error =
    /** `IllegalArgumentException` from the distance: string dimension counts differ. */
    | StringDimensionMismatch(left: nat, right: nat)
    /** `IllegalArgumentException` from the distance: double dimension counts differ. */
    | DoubleDimensionMismatch(left: nat, right: nat)
    /** `IllegalArgumentException` from the distance: integer dimension counts differ. */
    | IntDimensionMismatch(left: nat, right: nat)
    /** Hamming distance asked for two strings of different length. */
    | HammingLengthMismatch(left: nat, right: nat)
    /** A missing cell in the input table. */
    | MissingValue
    /** A value read through a column of another declared type. */
    | ClassCast
    /** An array or list index outside its bounds. */
    | IndexOutOfBounds(index: int)
    /** A label dereferenced before any row supplied one. */
    | NullLabel
    /** A negative array length. */
    | NegativeArraySize(size: int)
    /** `InvalidSettingsException` while configuring. */
    | InvalidSettings(reason: string)
    /** `InvalidSettingsException` while loading: a key is absent or holds another type. */
    | BadSetting(key: string)
    /** A method called on an array slot that was never filled. */
    | NullReference
    /** An integer remainder by zero. */
    | DivisionByZero
}
