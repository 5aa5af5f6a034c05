/** The exceptions the core raises, as a closed set of error values. */
module Errors {

  datatype Option<T> = None | Some(value: T)

  /** One case per `raise` (or failing index) in the core. */
  datatype Error =
    // find_block
    | InvalidLoc                // ValueError: no lines, or loc past the last line
    | LineIndexOutOfRange       // IndexError: `lines[idx]` with idx below -len(lines)
    | InvalidStart              // ValueError: the anchor line fails the start pattern
    | InvalidEnd                // ValueError: no line from the anchor on matches the end pattern
    // find_prop_in_block
    | NoPropMatch               // IndexError: `matches[0]` on an empty match list
    | EmptyBracketStack         // IndexError: `bracket_stack[-1]` on a closer with nothing open
    | UnmatchedBrackets         // ValueError: mismatching closer, or brackets left open
    // models
    | NotSingleElement          // ValueError: a root dict without exactly one key
    | NotFound                  // ValueError: start pattern or local name found nowhere
    | NoIdentifier              // StopIteration: `next(iter(...))` on a resource with no identifier
    | NoOutputModel             // ValueError: no row model registered for an input model
    | NotEnoughValuesToUnpack   // ValueError: resource name without `_`
    // writer
    | InvalidInsertPosition     // ValueError: neither marker present and position is not 'bottom'
    | InvalidMarkerPositions    // ValueError: one marker missing, or start after end
    // formatter
    | CellIndexOutOfRange       // IndexError: `row[idx]` on a row shorter than the header
    | RowLengthMismatch         // ValueError: `zip(..., strict=True)` over rows of different lengths
    | EmptySortKey              // IndexError: `x[0]` on an empty row while sorting

  datatype Result<T> = Ok(value: T) | Err(error: Error)
}
