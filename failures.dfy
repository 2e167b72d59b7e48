/** The ways one run of `assign2groups` can stop before it writes a result. */
module Failures {

  datatype Failure =
    /** The first CSV row is empty, so there is no corner cell to pop. */
    | EmptyHeader
    /** Group tokens without `=`, listed in header order. */
    | MissingSize(tokens: seq<string>)
    /** Unpacking the transposed `split("=")` parts into names and sizes fails:
        there are no group tokens, or every token has two or more `=`. */
    | UnpackMismatch
    /** Group tokens whose size part is not a non-empty digit string. */
    | WrongSizeFormat(tokens: seq<string>)
    /** More participant rows than slots; carries the count, the sizes and their sum. */
    | TooManyParticipants(participants: nat, sizes: seq<nat>, capacity: nat)
    /** Participant row `row` has no cells, so there is no name to pop. */
    | EmptyRow(row: nat)
    /** Participant row `row` has a non-blank preference in column `column`,
        which lies past the last group. */
    | PreferenceBeyondGroups(row: nat, column: nat)

  datatype Result<T> = Ok(value: T) | Err(error: Failure)

  datatype Option<T> = None | Some(value: T)
}
