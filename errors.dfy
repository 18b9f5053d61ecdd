/** Error kinds of the story engine and the two failure-carrying result types.
    Every place where the program reports a fatal error and exits becomes a
    `Fail`/`Err` carrying one of these kinds. */
module Errors {

  datatype Error =
    | NoColon             // a navigation line that is not WIN/LOSE/# has no ':'
    | BadChoiceNumber     // the text before the first ':' is not a positive numeral
    | MixedType           // a page's lines imply two different page types
    | RedundantWin        // a second WIN line in the navigation section
    | RedundantLose       // a second LOSE line in the navigation section
    | EmptyPage           // the page file has no lines at all
    | SubstrOutOfRange    // std::string::substr called with a start past the end
    | MissingStartPage    // page1.txt does not exist
    | TargetOutOfBound    // a choice names a page beyond the last page
    | MissingOutcome      // no WIN page or no LOSE page in the story
    | Unreferenced        // a page other than page 1 is never the target of a choice
    | Unwinnable          // no WIN page is reachable from page 1

  datatype Outcome = Pass | Fail(error: Error)

  datatype Result<T> = Ok(value: T) | Err(error: Error)
}
