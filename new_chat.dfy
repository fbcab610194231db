/** The "new chat" page: a text box limited to 1000 characters whose height
    follows its content between two bounds, an optional attached image, a
    send button, and a light/dark theme switch. */
module NewChat {
  import opened Optional
  import opened JsString

  const MaxChars: nat := 1000
  const MinTextareaHeight: int := 30
  const MaxTextareaHeight: int := 200

  /** `value.slice(0, MAX_CHARS)`: the first 1000 characters of what was typed. */
  function Truncate(typed: string): (r: string)
    ensures |r| <= MaxChars
    ensures |r| <= |typed| && r == typed[..|r|]
    ensures |typed| <= MaxChars ==> r == typed
    ensures |typed| > MaxChars ==> |r| == MaxChars
  {
    if |typed| <= MaxChars then typed else typed[..MaxChars]
  }

  /** Truncating what is already truncated changes nothing. */
  lemma TruncateIdempotent(typed: string)
    ensures Truncate(Truncate(typed)) == Truncate(typed)
  {
  }

  /** `min(max(scrollHeight, 30), 200)`: the height given to the text box. */
  function ClampHeight(scrollHeight: int): (h: int)
    ensures MinTextareaHeight <= h <= MaxTextareaHeight
    ensures MinTextareaHeight <= scrollHeight <= MaxTextareaHeight ==> h == scrollHeight
    ensures scrollHeight < MinTextareaHeight ==> h == MinTextareaHeight
    ensures scrollHeight > MaxTextareaHeight ==> h == MaxTextareaHeight
  {
    var atLeast := if scrollHeight > MinTextareaHeight then scrollHeight else MinTextareaHeight;
    if atLeast < MaxTextareaHeight then atLeast else MaxTextareaHeight
  }

  /** The saved theme is an unchecked cast of whatever local storage holds,
      so the theme is kept as the string it is. */
  const Light: string := "light"
  const Dark: string := "dark"

  /** The theme switch: "dark" becomes "light", anything else becomes "dark". */
  function Toggle(theme: string): (r: string)
    ensures r == Light || r == Dark
    ensures r == Light <==> theme == Dark
  {
    if theme == Dark then Light else Dark
  }

  /** On the two real themes the switch swaps them, so two presses restore
      the theme. */
  lemma ToggleTwice(theme: string)
    requires theme == Light || theme == Dark
    ensures Toggle(theme) != theme
    ensures Toggle(Toggle(theme)) == theme
  {
  }

  /** `savedTheme || 'light'`: the saved theme, or "light" when nothing (or
      an empty string) is saved. */
  function InitialTheme(saved: Option<string>): (r: string)
    ensures saved.Some? && saved.value != "" ==> r == saved.value
    ensures saved.None? || saved.value == "" ==> r == Light
  {
    if saved.Some? && saved.value != "" then saved.value else Light
  }

  /** Nothing to send: the text is blank after trimming and no image is attached. */
  predicate NothingToSend(inputValue: string, selectedImage: Option<string>) {
    IsBlank(inputValue) && selectedImage.None?
  }

  class Page {
    var inputValue: string
    var selectedImage: Option<string>
    var isSending: bool
    var theme: string
    var textareaHeight: int

    /** The page after mounting: the theme loaded from local storage, and
      the height effect run once on the empty text box, whose measured
      height is `scrollHeight`. */
    constructor (saved: Option<string>, scrollHeight: int)
      ensures inputValue == "" && selectedImage.None? && !isSending
      ensures theme == InitialTheme(saved)
      ensures textareaHeight == ClampHeight(scrollHeight) && Valid()
    {
      inputValue := "";
      selectedImage := None;
      isSending := false;
      theme := InitialTheme(saved);
      textareaHeight := ClampHeight(scrollHeight);
    }

    predicate Valid()
      reads this
    {
      |inputValue| <= MaxChars && MinTextareaHeight <= textareaHeight <= MaxTextareaHeight
    }

    /** `handleInputChange`: keep the first 1000 characters typed, then let
      the text box grow with its content. */
    method ChangeInput(typed: string, scrollHeight: int)
      requires Valid()
      modifies this
      ensures Valid()
      ensures inputValue == Truncate(typed)
      ensures textareaHeight == ClampHeight(scrollHeight)
      ensures selectedImage == old(selectedImage) && isSending == old(isSending) && theme == old(theme)
    {
      inputValue := Truncate(typed);
      textareaHeight := ClampHeight(scrollHeight);
    }

    /** An image read by the file picker is attached. */
    method AttachImage(dataUrl: string)
      requires Valid()
      modifies this
      ensures Valid()
      ensures selectedImage == Some(dataUrl)
      ensures inputValue == old(inputValue) && isSending == old(isSending) && theme == old(theme)
      ensures textareaHeight == old(textareaHeight)
    {
      selectedImage := Some(dataUrl);
    }

    /** The send button is disabled when there is nothing to send or while
      sending. */
    predicate SendEnabled()
      reads this
    {
      !NothingToSend(inputValue, selectedImage) && !isSending
    }

    /** `handleSend`: with nothing to send it returns at once; otherwise it
      marks the page as sending, waits, and clears the input and the image.
      Clearing the input runs the height effect again, which clamps the
      height of the emptied text box, `scrollHeight`. */
    method Send(scrollHeight: int) returns (sent: bool)
      requires Valid()
      modifies this
      ensures Valid()
      ensures sent <==> !NothingToSend(old(inputValue), old(selectedImage))
      ensures old(SendEnabled()) ==> sent
      ensures !sent ==> inputValue == old(inputValue) && selectedImage == old(selectedImage) &&
                        isSending == old(isSending)
      ensures !sent ==> textareaHeight == old(textareaHeight)
      ensures sent ==> inputValue == "" && selectedImage.None? && !isSending
      ensures sent ==> textareaHeight == ClampHeight(scrollHeight)
      ensures theme == old(theme)
    {
      if NothingToSend(inputValue, selectedImage) {
        return false;
      }
      isSending := true;
      inputValue := "";
      selectedImage := None;
      isSending := false;
      textareaHeight := ClampHeight(scrollHeight);
      sent := true;
    }

    /** `toggleTheme` */
    method ToggleTheme()
      requires Valid()
      modifies this
      ensures Valid()
      ensures theme == Toggle(old(theme))
      ensures inputValue == old(inputValue) && selectedImage == old(selectedImage)
      ensures isSending == old(isSending) && textareaHeight == old(textareaHeight)
    {
      theme := if theme == Dark then Light else Dark;
    }
  }

  /** Whitespace-only text with no image never gets past the guard, whatever
      white space it is made of. */
  lemma WhiteSpaceOnlyIsNothingToSend(text: string)
    requires forall i :: 0 <= i < |text| ==> IsWhiteSpace(text[i])
    ensures NothingToSend(text, None)
  {
    BlankIffAllWhiteSpace(text);
  }

  /** Text with one visible character can always be sent. */
  lemma VisibleTextCanBeSent(text: string, image: Option<string>, k: nat)
    requires k < |text| && !IsWhiteSpace(text[k])
    ensures !NothingToSend(text, image)
  {
    BlankIffAllWhiteSpace(text);
  }
}
