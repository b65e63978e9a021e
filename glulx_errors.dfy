/** The failures the output-interpretation layer can raise, one constructor per
    Python exception kind the source raises. */
module GlulxErrors {

  datatype Error =
      /** `open_tags.remove(name)` raised `ValueError`: a closing event tag whose
          base name is not on the open-tag stack. */
    | UnopenedTag(name: string)
      /** `assert len(open_tags) == 0` failed: events were recorded while tags
          were still open at the end of a text block. */
    | UnbalancedTags(openTags: seq<string>)
      /** `ExtraInfosIsMissingError`: a side-channel fact that was never received. */
    | ExtraInfoMissing(info: string)
      /** `StateTrackingIsRequiredError`. */
    | StateTrackingRequired(info: string)
      /** `OraclePolicyIsRequiredError`. */
    | OraclePolicyRequired(info: string)
      /** `int(text)` raised `ValueError`. */
    | NotAnInteger(text: string)
      /** `GameNotRunningError`: the interpreter process is gone. */
    | GameNotRunning
      /** `str.rsplit` raised `ValueError` for an empty separator. */
    | EmptySeparator
}
