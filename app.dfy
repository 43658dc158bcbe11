/**
 * The `App` component: its five state cells, the handlers that update them
 * (each an atomic, synchronous update), and the condition that selects the
 * list, detail or form view.
 */
module App {
  import opened Wrappers
  import opened Articles
  import opened Validation
  import ArticleForms

  /** What the main area renders. */
  datatype View = ListView | DetailView(shown: Article) | FormView(draft: Article, editing: bool)

  /** The four records the list is seeded with (descriptions cut to their opening words). */
  const EcoBreeze: Article :=
    Article(Some(1), "EcoBreeze Air Purifier", "Purificateur d'air \U{e9}cologique", "L'EcoBreeze Air Purifier")
  const LuminaTouch: Article :=
    Article(Some(2), "LuminaTouch Smart Lamp", "Lampe intelligente", "La LuminaTouch Smart Lamp")
  const SonoMax: Article :=
    Article(Some(3), "SonoMax Bluetooth Speaker", "Enceinte portable", "L'enceinte SonoMax")
  const FitTrack: Article :=
    Article(Some(4), "FitTrack Smart Scale", "Balance connect\U{e9}e", "La FitTrack Smart Scale")

  function InitialArticles(): seq<Article>
  {
    [EcoBreeze, LuminaTouch, SonoMax, FitTrack]
  }

  /** Four saved records numbered 1 to 4 form a valid list. */
  lemma NumberedListValid(a: Article, b: Article, c: Article, d: Article)
    requires Saved(a) && Saved(b) && Saved(c) && Saved(d)
    requires a.id == Some(1) && b.id == Some(2) && c.id == Some(3) && d.id == Some(4)
    ensures StoreValid([a, b, c, d])
  {
  }

  /** A record with an id whose three texts each start with a visible character is saved. */
  lemma VisibleStartSaved(a: Article, t: char, b: char, d: char)
    requires a.id.Some? && !IsWhitespace(t) && !IsWhitespace(b) && !IsWhitespace(d)
    requires |a.title| > 0 && a.title[0] == t
    requires |a.briefDescription| > 0 && a.briefDescription[0] == b
    requires |a.detailedDescription| > 0 && a.detailedDescription[0] == d
    ensures Saved(a)
  {
  }

  /**
   * Each seed record is saved. One lemma per record keeps each proof about a
   * string literal in a proof obligation of its own.
   */
  lemma EcoBreezeSaved()
    ensures Saved(EcoBreeze)
  {
    VisibleStartSaved(EcoBreeze, 'E', 'P', 'L');
  }

  lemma LuminaTouchSaved()
    ensures Saved(LuminaTouch)
  {
    VisibleStartSaved(LuminaTouch, 'L', 'L', 'L');
  }

  lemma SonoMaxSaved()
    ensures Saved(SonoMax)
  {
    VisibleStartSaved(SonoMax, 'S', 'E', 'L');
  }

  lemma FitTrackSaved()
    ensures Saved(FitTrack)
  {
    VisibleStartSaved(FitTrack, 'F', 'B', 'L');
  }

  /** The seed list satisfies the list's invariant: ids 1 to 4, every text starting with a visible character. */
  lemma InitialArticlesValid()
    ensures StoreValid(InitialArticles())
  {
    EcoBreezeSaved();
    LuminaTouchSaved();
    SonoMaxSaved();
    FitTrackSaved();
    NumberedListValid(EcoBreeze, LuminaTouch, SonoMax, FitTrack);
  }

  class AppState {
    var articles: seq<Article>
    var showForm: bool
    var currentArticle: Option<Article>
    var isEditing: bool
    var viewMode: bool

    /**
     * The list keeps its invariant; the detail and form views are never both
     * active; each has an article to render, and the detail view's article is
     * one the list still holds.
     */
    ghost predicate Valid()
      reads this
    {
      && StoreValid(articles)
      && !(showForm && viewMode)
      && (viewMode ==> currentArticle.Some? && currentArticle.value in articles)
      && (showForm ==> currentArticle.Some?)
    }

    /** The initial cells, with the list seeded as the mount effect does. */
    constructor ()
      ensures Valid()
      ensures articles == InitialArticles()
      ensures !showForm && !viewMode && !isEditing && currentArticle == None
    {
      articles := InitialArticles();
      showForm, viewMode, isEditing := false, false, false;
      currentArticle := None;
      InitialArticlesValid();
    }

    /** The render condition: the list when neither flag is set, else the detail view, else the form. */
    function CurrentView(): (v: View)
      reads this
      requires Valid()
      ensures v.ListView? <==> !showForm && !viewMode
      ensures v.DetailView? <==> viewMode
      ensures v.DetailView? ==> currentArticle == Some(v.shown) && v.shown in articles
      ensures v.FormView? ==> showForm && currentArticle == Some(v.draft) && v.editing == isEditing
    {
      if !showForm && !viewMode then ListView
      else if viewMode then DetailView(currentArticle.value)
      else FormView(currentArticle.value, isEditing)
    }

    /** Opens the form on an empty draft in add mode. */
    method HandleAdd()
      requires Valid()
      modifies this
      ensures Valid()
      ensures CurrentView() == FormView(EmptyDraft, false)
      ensures articles == old(articles)
      ensures showForm && !viewMode && !isEditing && currentArticle == Some(EmptyDraft)
    {
      showForm := true;
      viewMode := false;
      isEditing := false;
      currentArticle := Some(EmptyDraft);
    }

    /** Opens the form on `article` in edit mode. */
    method HandleEdit(article: Article)
      requires Valid()
      modifies this
      ensures Valid()
      ensures CurrentView() == FormView(article, true)
      ensures articles == old(articles)
      ensures showForm && !viewMode && isEditing && currentArticle == Some(article)
    {
      showForm := true;
      viewMode := false;
      isEditing := true;
      currentArticle := Some(article);
    }

    /**
     * `onSave`: replaces by id in edit mode, appends under a fresh id in add
     * mode (the mode is the `isEditing` cell, not whether the id is null), then
     * closes the form. Called only by the form, after validation passed.
     */
    method HandleSave(article: Article)
      requires Valid() && showForm && Complete(article)
      modifies this
      ensures Valid()
      ensures old(isEditing) ==> articles == ReplaceById(old(articles), article)
      ensures !old(isEditing) ==> articles == AddArticle(old(articles), article)
      ensures !showForm && viewMode == old(viewMode) && isEditing == old(isEditing)
      ensures currentArticle == old(currentArticle)
      ensures CurrentView() == ListView
    {
      if isEditing {
        ReplaceKeepsStoreValid(articles, article);
        articles := ReplaceById(articles, article);
      } else {
        AddKeepsStoreValid(articles, article);
        articles := AddArticle(articles, article);
      }
      showForm := false;
    }

    /**
     * Deletes every record with `id` once the user confirms; if the article
     * held in `currentArticle` is the one deleted, clears it and leaves the
     * detail view. A declined confirmation changes nothing. Reached only from a
     * card of the list, so the id is present and the form is closed.
     */
    method HandleDelete(id: Option<int>, confirmed: bool)
      requires Valid() && !showForm && Find(articles, id).Some?
      modifies this
      ensures Valid()
      ensures !confirmed ==> articles == old(articles) && currentArticle == old(currentArticle) && viewMode == old(viewMode)
      ensures confirmed ==> articles == RemoveById(old(articles), id)
      ensures confirmed && old(currentArticle).Some? && old(currentArticle).value.id == id ==>
        currentArticle == None && !viewMode
      ensures !(confirmed && old(currentArticle).Some? && old(currentArticle).value.id == id) ==>
        currentArticle == old(currentArticle) && viewMode == old(viewMode)
      ensures showForm == old(showForm) && isEditing == old(isEditing)
    {
      if confirmed {
        RemoveKeepsStoreValid(articles, id);
        articles := RemoveById(articles, id);
        if currentArticle.Some? && currentArticle.value.id == id {
          currentArticle := None;
          viewMode := false;
        }
      }
    }

    /** Shows `article`, a card of the list, in the detail view. */
    method HandleView(article: Article)
      requires Valid() && article in articles
      modifies this
      ensures Valid()
      ensures CurrentView() == DetailView(article)
      ensures articles == old(articles) && isEditing == old(isEditing)
      ensures currentArticle == Some(article) && viewMode && !showForm
    {
      currentArticle := Some(article);
      viewMode := true;
      showForm := false;
    }

    /** Leaves the detail view (the Back button is never rendered with the form open). */
    method HandleBack()
      requires Valid() && !showForm
      modifies this
      ensures Valid()
      ensures CurrentView() == ListView
      ensures articles == old(articles) && isEditing == old(isEditing) && showForm == old(showForm)
      ensures currentArticle == None && !viewMode
    {
      currentArticle := None;
      viewMode := false;
    }

    /** The form's cancel callback: closes the form and touches nothing else. */
    method Cancel()
      requires Valid()
      modifies this
      ensures Valid()
      ensures !showForm
      ensures articles == old(articles) && isEditing == old(isEditing)
      ensures currentArticle == old(currentArticle) && viewMode == old(viewMode)
    {
      showForm := false;
    }
  }

  /**
   * Pressing Save on the open form: `handleSubmit` validates and, only when
   * validation passes, `handleSave` stores the edited article.
   */
  method SubmitForm(app: AppState, form: ArticleForms.ArticleForm)
    requires app.Valid() && app.showForm && app.currentArticle == Some(form.article)
    modifies app, form`errors
    ensures app.Valid()
    ensures form.errors == Validate(form.title, form.briefDescription, form.detailedDescription)
    ensures !IsValid(form.title, form.briefDescription, form.detailedDescription) ==>
      app.articles == old(app.articles) && app.showForm && app.viewMode == old(app.viewMode)
      && app.isEditing == old(app.isEditing) && app.currentArticle == old(app.currentArticle)
    ensures IsValid(form.title, form.briefDescription, form.detailedDescription) ==>
      && !app.showForm
      && app.viewMode == old(app.viewMode) && app.isEditing == old(app.isEditing)
      && app.currentArticle == old(app.currentArticle)
      && app.articles == (if old(app.isEditing) then ReplaceById(old(app.articles), form.Edited())
                          else AddArticle(old(app.articles), form.Edited()))
  {
    var saved := form.HandleSubmit();
    if saved.Some? {
      app.HandleSave(saved.value);
    }
  }
}
