/** The submit handler of the post editor page (`write-post.js`): it clears
    the error texts, checks title and content, and only when both pass
    sends the post, as a new one or as an edit of the post in the page URL.
    The page's loading of an existing post and the fetch itself are not
    modelled; the request is returned. */
module WritePost {
  import opened Common
  import RequestValidation

  const TitleRequired: string := "제목은 필수입니다."
  const TitleTooLong: string := "제목은 최대 255자까지 가능합니다."
  const ContentRequired: string := "내용은 필수입니다."
  const ContentTooLong: string := "내용은 너무 깁니다."
  const MaxTitleLength: int := 255
  const MaxContentLength: int := 65535

  /** The request the handler sends. */
  datatype PostRequest = PostRequest(httpMethod: string, url: string, title: string, content: string)

  /** The title check: an empty or whitespace-only title is required, a
      longer one than 255 characters too long; `""` means no error. */
  function TitleError(title: string): string {
    if JsBlank(title) then TitleRequired else if |title| > MaxTitleLength then TitleTooLong else ""
  }

  function ContentError(content: string): string {
    if JsBlank(content) then ContentRequired else if |content| > MaxContentLength then ContentTooLong else ""
  }

  /** Where the form sends a valid post. */
  function Target(isEditMode: bool, postId: string, title: string, content: string): PostRequest {
    if isEditMode then PostRequest("PUT", "/api/posts/" + postId, title, content)
    else PostRequest("POST", "/api/posts", title, content)
  }

  class PostForm {
    /** Whether the page was opened with an `id` parameter, and that id. */
    const isEditMode: bool
    const postId: string
    var titleError: string
    var contentError: string
    var generalError: string

    /** The page's start: edit mode exactly when the URL carries a
        non-empty `id`. */
    constructor(idParam: Option<string>)
      ensures isEditMode <==> idParam.Some? && idParam.value != ""
      ensures isEditMode ==> postId == idParam.value
      ensures titleError == "" && contentError == "" && generalError == ""
    {
      isEditMode := idParam.Some? && idParam.value != "";
      postId := if idParam.Some? then idParam.value else "";
      titleError, contentError, generalError := "", "", "";
    }

    /** The `submit` listener, for the input fields' current values. */
    method Submit(title: string, content: string) returns (sent: Option<PostRequest>)
      modifies this
      ensures titleError == TitleError(title) && contentError == ContentError(content) && generalError == ""
      ensures sent.Some? <==> titleError == "" && contentError == ""
      ensures sent.Some? ==> sent.value == Target(isEditMode, postId, title, content)
    {
      titleError := "";
      contentError := "";
      generalError := "";

      var isValid := true;
      if title == "" || |JsTrim(title)| == 0 {
        titleError := TitleRequired;
        isValid := false;
      } else if |title| > MaxTitleLength {
        titleError := TitleTooLong;
        isValid := false;
      }

      if content == "" || |JsTrim(content)| == 0 {
        contentError := ContentRequired;
        isValid := false;
      } else if |content| > MaxContentLength {
        contentError := ContentTooLong;
        isValid := false;
      }

      if !isValid {
        return None;
      }

      var url := "/api/posts";
      var httpMethod := "POST";
      if isEditMode {
        url := "/api/posts/" + postId;
        httpMethod := "PUT";
      }
      sent := Some(PostRequest(httpMethod, url, title, content));
    }
  }

  /** The browser's check passes exactly when the title and the content are
      not blank in the JavaScript sense and within the server's column
      sizes. */
  lemma ClientAccepts(title: string, content: string)
    ensures TitleError(title) == "" && ContentError(content) == "" <==>
      && !JsBlank(title) && |title| <= RequestValidation.MaxTitleLength
      && !JsBlank(content) && |content| <= RequestValidation.MaxContentLength
  {
  }

  /** When no control character other than JavaScript white space occurs,
      what the browser lets through also passes the server's validation of
      `PostCreateRequest`. */
  lemma {:induction false} ClientAcceptedImpliesServerAccepted(title: string, content: string)
    requires forall i :: 0 <= i < |title| ==> title[i] > ' ' || IsJsWhitespace(title[i])
    requires forall i :: 0 <= i < |content| ==> content[i] > ' ' || IsJsWhitespace(content[i])
    requires TitleError(title) == "" && ContentError(content) == ""
    ensures RequestValidation.PostCreateViolations(RequestValidation.PostCreateRequest(Some(title), Some(content))) == []
  {
    JsNotBlankIsJavaNotBlank(title);
    JsNotBlankIsJavaNotBlank(content);
    RequestValidation.PostCreateAccepted(RequestValidation.PostCreateRequest(Some(title), Some(content)));
  }

  lemma {:induction false} JsNotBlankIsJavaNotBlank(s: string)
    requires forall i :: 0 <= i < |s| ==> s[i] > ' ' || IsJsWhitespace(s[i])
    requires !JsBlank(s)
    ensures !JavaBlank(s)
  {
    TrimEmptyIff(s, IsJsWhitespace);
    TrimEmptyIff(s, IsJavaTrimmed);
    var i :| 0 <= i < |s| && !IsJsWhitespace(s[i]);
    assert !IsJavaTrimmed(s[i]);
  }

  /** The two notions of blank differ both ways: a lone control character
      passes the browser and fails the server, and a lone no-break space
      fails the browser although the server would accept it. */
  lemma BlankMismatch()
    ensures TitleError("\U{0001}") == "" && !RequestValidation.NotBlank(Some("\U{0001}"))
    ensures TitleError("\U{00A0}") == TitleRequired && RequestValidation.NotBlank(Some("\U{00A0}"))
  {
    TrimEmptyIff("\U{0001}", IsJsWhitespace);
    TrimEmptyIff("\U{0001}", IsJavaTrimmed);
    TrimEmptyIff("\U{00A0}", IsJsWhitespace);
    TrimEmptyIff("\U{00A0}", IsJavaTrimmed);
  }
}
