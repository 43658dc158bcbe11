/**
 * The `ArticleForm` component: its three text cells and its error map, the
 * `onChange` setters, `validateForm` and `handleSubmit`.
 */
module ArticleForms {
  import opened Wrappers
  import opened Articles
  import opened Validation

  class ArticleForm {
    /** The `article` prop the form was opened with (a draft, or the record being edited). */
    const article: Article
    var title: string
    var briefDescription: string
    var detailedDescription: string
    var errors: map<Field, string>

    /** The form's cells start as the article's fields, with no errors. */
    constructor (article: Article)
      ensures this.article == article
      ensures title == article.title
      ensures briefDescription == article.briefDescription
      ensures detailedDescription == article.detailedDescription
      ensures errors == map[]
    {
      this.article := article;
      title := article.title;
      briefDescription := article.briefDescription;
      detailedDescription := article.detailedDescription;
      errors := map[];
    }

    method SetTitle(value: string)
      modifies this`title
      ensures title == value
    {
      title := value;
    }

    method SetBriefDescription(value: string)
      modifies this`briefDescription
      ensures briefDescription == value
    {
      briefDescription := value;
    }

    method SetDetailedDescription(value: string)
      modifies this`detailedDescription
      ensures detailedDescription == value
    {
      detailedDescription := value;
    }

    /** `{ ...article, title, briefDescription, detailedDescription }`: the edited texts under the original id. */
    function Edited(): (a: Article)
      reads this
      ensures a.id == article.id
      ensures a.title == title && a.briefDescription == briefDescription
      ensures a.detailedDescription == detailedDescription
    {
      article.(title := title, briefDescription := briefDescription, detailedDescription := detailedDescription)
    }

    /** Stores the error map and reports whether it has no keys. */
    method ValidateForm() returns (ok: bool)
      modifies this`errors
      ensures errors == Validate(title, briefDescription, detailedDescription)
      ensures ok <==> IsValid(title, briefDescription, detailedDescription)
    {
      var t, b, d := title, briefDescription, detailedDescription;
      var newErrors := Validate(t, b, d);
      ValidateEmptyIff(t, b, d);
      errors := newErrors;
      ok := |newErrors| == 0;
      assert t == title && b == briefDescription && d == detailedDescription;
    }

    /**
     * Validates, and hands back the article to save only when validation
     * passes (the `onSave` call becomes the returned value).
     */
    method HandleSubmit() returns (saved: Option<Article>)
      modifies this`errors
      ensures errors == Validate(title, briefDescription, detailedDescription)
      ensures saved.Some? <==> IsValid(title, briefDescription, detailedDescription)
      ensures saved.Some? ==> saved.value == Edited() && Complete(saved.value)
    {
      var ok := ValidateForm();
      if ok {
        CompleteIffValid(Edited());
        saved := Some(Edited());
      } else {
        saved := None;
      }
    }
  }
}
