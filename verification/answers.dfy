/** How the tool reads the operator's answer to a yes/no question:
    only the first character of the lower-cased answer matters. */
module Answers {
  import opened CaseMapping

  /** `response.toLowerCase().charAt(0)`: the empty string for an empty answer. */
  function FirstLowered(response: string): (r: string)
    ensures |r| == (if response == [] then 0 else 1)
    ensures response != [] ==> r[0] == ToLower(response[0])
  {
    if response == [] then "" else [ToLower(response[0])]
  }

  /** The costume and kerning questions: yes unless the answer starts with something other than `y`. */
  function AnswerIsYes(response: string): (yes: bool)
    ensures yes <==> (response == [] || response[0] == 'y' || response[0] == 'Y')
  {
    var first := FirstLowered(response);
    first == "y" || first == ""
  }

  /** The custom-charset question: yes only if the answer starts with `y`. */
  function WantsCustomCharset(response: string): (yes: bool)
    ensures yes <==> (response != [] && (response[0] == 'y' || response[0] == 'Y'))
  {
    FirstLowered(response) == "y"
  }

  /** An empty answer means yes to costumes and kerning but no to a custom charset;
      every answer accepted for a custom charset is also a yes to the other two. */
  lemma Defaults(response: string)
    ensures AnswerIsYes("") && !WantsCustomCharset("")
    ensures WantsCustomCharset(response) ==> AnswerIsYes(response)
    ensures AnswerIsYes(response) <==> (response == [] || WantsCustomCharset(response))
  {
  }
}
