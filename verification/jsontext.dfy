/** Locating the JSON object inside a free-text model reply and handing it to
    a JSON decoder. The decoder itself (Python's `json.loads`) is a parameter:
    it is not visible to this model, except that it rejects the empty text. */
module JsonText {
  import opened Wrappers
  import opened PyStr

  /** The message `json.loads("")` raises. */
  const EmptyInputError: string := "Expecting value: line 1 column 1 (char 0)"

  /** `json.loads(text)` for a decoder of non-empty texts. */
  function Loads<T>(decode: string -> Result<T, string>, text: string): (r: Result<T, string>)
    ensures text == "" ==> r == Failure(EmptyInputError)
    ensures text != "" ==> r == decode(text)
  {
    if text == "" then Failure(EmptyInputError) else decode(text)
  }

  /** `text[text.find('{') : text.rfind('}') + 1]`: from the first `{` through
      the last `}`, or empty when no `}` follows the first `{`. */
  function BraceSpan(text: string): (r: string)
    requires Contains(text, "{")
    ensures RFind(text, "}") < Find(text, "{") ==> r == ""
    ensures Find(text, "{") < RFind(text, "}") ==>
              && r == text[Find(text, "{")..RFind(text, "}") + 1]
              && r[0] == '{' && r[|r| - 1] == '}'
  {
    var start := Find(text, "{");
    var end := RFind(text, "}") + 1;
    assert start < end ==> text[start..start + 1] == "{";
    assert 0 < end ==> text[end - 1..end] == "}";
    Slice(text, start, end)
  }
}
