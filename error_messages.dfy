// clean_error_message: a download error's text is reduced to one short
// line for the console.
module ErrorMessages {
  import opened Text

  const PrivateVideoMessage: string := "This video is private. Sign in to access it."
  const UnavailableMessage: string := "This video is unavailable."
  const IncompleteDataMessage: string := "YouTube did not provide complete data. Retrying failed."

  predicate IsPrivate(errorText: string) { Contains(errorText, "Private video") }
  predicate IsUnavailable(errorText: string) { Contains(errorText, "Video unavailable") }
  predicate IsIncomplete(errorText: string) { Contains(errorText, "Incomplete data received") }

  /** The substrings are tested in a fixed order and the first one present
      selects its message; otherwise the first line of the text is kept:
      a prefix without a newline that stops at the first newline, and the
      whole text when there is none. */
  function CleanErrorMessage(errorText: string): (r: string)
    ensures IsPrivate(errorText) ==> r == PrivateVideoMessage
    ensures (!IsPrivate(errorText) && IsUnavailable(errorText)) ==> r == UnavailableMessage
    ensures (!IsPrivate(errorText) && !IsUnavailable(errorText) && IsIncomplete(errorText))
      ==> r == IncompleteDataMessage
    ensures (!IsPrivate(errorText) && !IsUnavailable(errorText) && !IsIncomplete(errorText))
      ==> && r <= errorText
          && '\n' !in r
          && (|r| < |errorText| ==> errorText[|r|] == '\n')
          && ('\n' !in errorText ==> r == errorText)
  {
    if IsPrivate(errorText) then PrivateVideoMessage
    else if IsUnavailable(errorText) then UnavailableMessage
    else if IsIncomplete(errorText) then IncompleteDataMessage
    else FirstLine(errorText)
  }
}
