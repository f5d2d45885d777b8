/** How an image validator answers: the source raises `ValueError`, the model returns the reason. */
module Verdict {

  datatype Reason =
    | NotElf64 | BadElfHeader | TruncatedProgramTable | BadSegment | NoLoadSegment
    | NotPe | BadHeaderOffset | WrongMachine | BadSectionTable | NotPe32Plus
    | TruncatedSectionTable | BadSectionPayload
    | NoLoadConfigDirectory | BadAlignmentOrSize | TruncatedLoadConfig | BadRva | BadLoadConfigSize
    | NoChpePointer | BadChpeMetadata | BadRangeType | BadRangeExtent | RangeLeavesExecutable | NoArm64ecRange

  datatype Checked<+T> = Ok(value: T) | Rejected(why: Reason) {
    predicate IsFailure() {
      Rejected?
    }

    function PropagateFailure<U>(): Checked<U>
      requires Rejected?
    {
      Rejected(why)
    }

    function Extract(): T
      requires Ok?
    {
      value
    }
  }
}
