/**
 * The article records and the pure list operations the application applies to
 * its `articles` state: id assignment and append on add, replace-by-id on edit,
 * filter-by-id on delete, and the lookup `articles.find`.
 */
module Articles {
  import opened Wrappers
  import Validation

  /** An article; a draft that has never been saved carries `id == None` (`null`). */
  datatype Article = Article(
    id: Option<int>,
    title: string,
    briefDescription: string,
    detailedDescription: string)

  /** The draft `handleAdd` opens the form with. */
  const EmptyDraft: Article := Article(None, "", "", "")

  /** The numeric value `Math.max` sees for an id: JavaScript coerces `null` to 0. */
  function Key(a: Article): int
  {
    match a.id
    case Some(n) => n
    case None => 0
  }

  /** `Math.max(...articles.map(a => a.id))` on a non-empty list. */
  function MaxKey(s: seq<Article>): (m: int)
    requires |s| > 0
    ensures forall i :: 0 <= i < |s| ==> Key(s[i]) <= m
    ensures exists i :: 0 <= i < |s| && Key(s[i]) == m
  {
    if |s| == 1 then Key(s[0])
    else
      var rest := MaxKey(s[1..]);
      if Key(s[0]) >= rest then Key(s[0]) else rest
  }

  /** The id given to a new article: one more than the largest id, or 1 on an empty list. */
  function NextId(s: seq<Article>): (n: int)
    ensures |s| == 0 ==> n == 1
    ensures forall i :: 0 <= i < |s| ==> Key(s[i]) < n
    ensures |s| > 0 ==> exists i :: 0 <= i < |s| && Key(s[i]) == n - 1
  {
    if |s| > 0 then MaxKey(s) + 1 else 1
  }

  /** `{ ...draft, id: NextId(s) }` appended after the existing records. */
  function AddArticle(s: seq<Article>, draft: Article): (r: seq<Article>)
    ensures |r| == |s| + 1 && r[..|s|] == s
    ensures r[|s|] == draft.(id := Some(NextId(s)))
  {
    s + [draft.(id := Some(NextId(s)))]
  }

  /** `articles.map(a => a.id === saved.id ? saved : a)`. */
  function ReplaceById(s: seq<Article>, saved: Article): (r: seq<Article>)
    ensures |r| == |s|
    ensures forall i :: 0 <= i < |s| && s[i].id == saved.id ==> r[i] == saved
    ensures forall i :: 0 <= i < |s| && s[i].id != saved.id ==> r[i] == s[i]
  {
    seq(|s|, i requires 0 <= i < |s| => if s[i].id == saved.id then saved else s[i])
  }

  /** `articles.filter(a => a.id !== id)`. */
  function RemoveById(s: seq<Article>, id: Option<int>): (r: seq<Article>)
    ensures |r| <= |s|
    ensures forall a {:trigger a in r} :: a in r <==> a in s && a.id != id
  {
    if s == [] then []
    else (if s[0].id != id then [s[0]] else []) + RemoveById(s[1..], id)
  }

  /** `articles.find(a => a.id === id)`: the first record carrying `id`, if any. */
  function Find(s: seq<Article>, id: Option<int>): (r: Option<Article>)
    ensures r.None? <==> forall i :: 0 <= i < |s| ==> s[i].id != id
    ensures r.Some? ==> exists k :: 0 <= k < |s| && s[k] == r.value && s[k].id == id && FirstWithId(s, id, k)
  {
    if s == [] then None
    else if s[0].id == id then (assert FirstWithId(s, id, 0); Some(s[0]))
    else
      var r := Find(s[1..], id);
      if r.Some? then
        var k :| 0 <= k < |s| - 1 && s[1..][k] == r.value && s[1..][k].id == id && FirstWithId(s[1..], id, k);
        assert FirstWithId(s, id, k + 1);
        r
      else r
  }

  /** No record before index `k` carries `id`. */
  predicate FirstWithId(s: seq<Article>, id: Option<int>, k: int)
  {
    forall j :: 0 <= j < k && j < |s| ==> s[j].id != id
  }

  // ----- Invariants of the list -----

  /** The ids of the records are pairwise distinct. */
  predicate DistinctIds(s: seq<Article>)
  {
    forall i, j :: 0 <= i < j < |s| ==> s[i].id != s[j].id
  }

  /**
   * Every field of the record holds a character other than whitespace, which
   * is what passing the form's validation means (`CompleteIffValid`).
   */
  predicate Complete(a: Article)
  {
    && !Validation.AllWhitespace(a.title)
    && !Validation.AllWhitespace(a.briefDescription)
    && !Validation.AllWhitespace(a.detailedDescription)
  }

  /** A record is complete exactly when its three texts pass validation. */
  lemma CompleteIffValid(a: Article)
    ensures Complete(a) <==> Validation.IsValid(a.title, a.briefDescription, a.detailedDescription)
  {
    Validation.BlankIffAllWhitespace(a.title);
    Validation.BlankIffAllWhitespace(a.briefDescription);
    Validation.BlankIffAllWhitespace(a.detailedDescription);
  }

  /** A record as the list holds it: saved under an id, with every field complete. */
  predicate Saved(a: Article)
  {
    a.id.Some? && Complete(a)
  }

  /** What the list keeps: every record saved, ids pairwise distinct. */
  predicate StoreValid(s: seq<Article>)
  {
    (forall a :: a in s ==> Saved(a)) && DistinctIds(s)
  }

  // ----- Adding -----

  /** The fresh id is carried by no record already in the list. */
  lemma NextIdIsFresh(s: seq<Article>)
    ensures forall a :: a in s ==> a.id != Some(NextId(s))
  {
    forall a | a in s ensures a.id != Some(NextId(s)) {
      var i :| 0 <= i < |s| && s[i] == a;
      assert Key(s[i]) < NextId(s);
    }
  }

  /** Adding keeps ids pairwise distinct, because the fresh id exceeds every existing one. */
  lemma {:induction false} AddKeepsDistinct(s: seq<Article>, draft: Article)
    requires DistinctIds(s)
    ensures DistinctIds(AddArticle(s, draft))
  {
    var r := AddArticle(s, draft);
    NextIdIsFresh(s);
    forall i, j | 0 <= i < j < |r| ensures r[i].id != r[j].id {
      if j == |s| {
        assert r[i] in s;
      } else {
        assert r[i] == s[i] && r[j] == s[j];
      }
    }
  }

  /** Adding a complete draft keeps the list's invariant. */
  lemma AddKeepsStoreValid(s: seq<Article>, draft: Article)
    requires StoreValid(s) && Complete(draft)
    ensures StoreValid(AddArticle(s, draft))
  {
    AddKeepsDistinct(s, draft);
    var r := AddArticle(s, draft);
    assert r == s + [r[|s|]];
    assert Saved(r[|s|]);
  }

  /** Looking up the assigned id after an add finds the draft's fields under that id. */
  lemma FindAfterAdd(s: seq<Article>, draft: Article)
    ensures Find(AddArticle(s, draft), Some(NextId(s))) == Some(draft.(id := Some(NextId(s))))
  {
    var r := AddArticle(s, draft);
    var id := Some(NextId(s));
    NextIdIsFresh(s);
    assert r[|s|].id == id;
    assert FirstWithId(r, id, |s|) by {
      forall j | 0 <= j < |s| ensures r[j].id != id {
        assert r[j] == s[j] && s[j] in s;
      }
    }
  }

  /** Deleting the id an add assigned gives back the list as it was before the add. */
  lemma RemoveUndoesAdd(s: seq<Article>, draft: Article)
    ensures RemoveById(AddArticle(s, draft), Some(NextId(s))) == s
  {
    var id := Some(NextId(s));
    NextIdIsFresh(s);
    RemoveConcat(s, [draft.(id := id)], id);
    RemoveAbsent(s, id);
  }

  /** The id assigned after the ids 1 and 3 is 4. */
  lemma NextIdAfterOneAndThree(a: Article, b: Article)
    requires a.id == Some(1) && b.id == Some(3)
    ensures NextId([a, b]) == 4
  {
    assert MaxKey([a, b][1..]) == 3;
  }

  /** An add on an empty list stores the draft with id 1. */
  lemma AddToEmpty(draft: Article)
    ensures AddArticle([], draft) == [draft.(id := Some(1))]
  {
  }

  // ----- Editing -----

  /** A save whose id matches no record leaves the list identical. */
  lemma {:induction false} ReplaceNoMatch(s: seq<Article>, saved: Article)
    requires forall i :: 0 <= i < |s| ==> s[i].id != saved.id
    ensures ReplaceById(s, saved) == s
  {
    var r := ReplaceById(s, saved);
    assert forall i :: 0 <= i < |s| ==> r[i] == s[i];
  }

  /** With distinct ids, an edit-save replaces exactly the one record at `k` and nothing else. */
  lemma {:induction false} ReplaceExactlyOne(s: seq<Article>, saved: Article, k: int)
    requires DistinctIds(s) && 0 <= k < |s| && s[k].id == saved.id
    ensures ReplaceById(s, saved) == s[k := saved]
  {
    var r := ReplaceById(s, saved);
    forall i | 0 <= i < |s| ensures r[i] == s[k := saved][i] {
      if i < k {
        assert s[i].id != s[k].id;
      } else if i > k {
        assert s[k].id != s[i].id;
      }
    }
  }

  /** An edit-save never changes which id sits at which position. */
  lemma {:induction false} ReplaceKeepsIds(s: seq<Article>, saved: Article)
    ensures forall i :: 0 <= i < |s| ==> ReplaceById(s, saved)[i].id == s[i].id
  {
    var r := ReplaceById(s, saved);
    forall i | 0 <= i < |s| ensures r[i].id == s[i].id {
      if s[i].id == saved.id {
        assert r[i] == saved;
      } else {
        assert r[i] == s[i];
      }
    }
  }

  /** Saving a complete edited record keeps the list's invariant. */
  lemma ReplaceKeepsStoreValid(s: seq<Article>, saved: Article)
    requires StoreValid(s) && Complete(saved)
    ensures StoreValid(ReplaceById(s, saved))
  {
    var r := ReplaceById(s, saved);
    ReplaceKeepsIds(s, saved);
    forall a | a in r ensures Saved(a) {
      var i :| 0 <= i < |r| && r[i] == a;
      assert s[i] in s;
    }
  }

  // ----- Deleting -----

  /** Filtering distributes over concatenation: it keeps the relative order of what it keeps. */
  lemma {:induction false} RemoveConcat(s: seq<Article>, t: seq<Article>, id: Option<int>)
    ensures RemoveById(s + t, id) == RemoveById(s, id) + RemoveById(t, id)
  {
    if s == [] {
      assert s + t == t;
    } else {
      assert (s + t)[1..] == s[1..] + t;
      RemoveConcat(s[1..], t, id);
    }
  }

  /** Removing an id no record carries leaves the list identical. */
  lemma {:induction false} RemoveAbsent(s: seq<Article>, id: Option<int>)
    requires forall a :: a in s ==> a.id != id
    ensures RemoveById(s, id) == s
  {
    if s != [] {
      assert s[0] in s;
      assert forall a :: a in s[1..] ==> a in s;
      RemoveAbsent(s[1..], id);
      assert [s[0]] + s[1..] == s;
    }
  }

  /** Removing the same id twice gives the same list as removing it once. */
  lemma RemoveIdempotent(s: seq<Article>, id: Option<int>)
    ensures RemoveById(RemoveById(s, id), id) == RemoveById(s, id)
  {
    RemoveAbsent(RemoveById(s, id), id);
  }

  /** After a delete, looking the id up finds nothing. */
  lemma FindAfterRemove(s: seq<Article>, id: Option<int>)
    ensures Find(RemoveById(s, id), id) == None
  {
    var r := RemoveById(s, id);
    assert forall i :: 0 <= i < |r| ==> r[i] in r;
  }

  /** The records before `k` in a list with distinct ids do not carry the id at `k`, nor do those after it. */
  lemma OthersCarryOtherIds(s: seq<Article>, k: int)
    requires DistinctIds(s) && 0 <= k < |s|
    ensures forall a :: a in s[..k] ==> a.id != s[k].id
    ensures forall a :: a in s[k + 1..] ==> a.id != s[k].id
  {
    forall a | a in s[..k] ensures a.id != s[k].id {
      var i :| 0 <= i < k && s[..k][i] == a;
      assert s[i] == a;
    }
    forall a | a in s[k + 1..] ensures a.id != s[k].id {
      var i :| 0 <= i < |s| - k - 1 && s[k + 1..][i] == a;
      assert s[k + 1 + i] == a;
    }
  }

  /** Removing the id of `x` from `before + [x] + after`, where only `x` carries it, leaves `before + after`. */
  lemma RemoveOnlyCarrier(before: seq<Article>, x: Article, after: seq<Article>)
    requires forall a :: a in before ==> a.id != x.id
    requires forall a :: a in after ==> a.id != x.id
    ensures RemoveById(before + ([x] + after), x.id) == before + after
  {
    assert RemoveById([x], x.id) == [] by {
      assert [x][1..] == [];
    }
    RemoveAbsent(before, x.id);
    RemoveAbsent(after, x.id);
    RemoveConcat([x], after, x.id);
    var rest := [x] + after;
    assert RemoveById(rest, x.id) == after;
    RemoveConcat(before, rest, x.id);
  }

  /** A list is its records before `k`, the record at `k`, and its records after `k`. */
  lemma SplitAround(s: seq<Article>, k: int)
    requires 0 <= k < |s|
    ensures s == s[..k] + ([s[k]] + s[k + 1..])
  {
  }

  /** With distinct ids, deleting the id of the record at `k` removes that record alone, keeping the order of the rest. */
  lemma RemoveExactlyOne(s: seq<Article>, k: int)
    requires DistinctIds(s) && 0 <= k < |s|
    ensures RemoveById(s, s[k].id) == s[..k] + s[k + 1..]
  {
    var before, after := s[..k], s[k + 1..];
    SplitAround(s, k);
    OthersCarryOtherIds(s, k);
    RemoveOnlyCarrier(before, s[k], after);
  }

  /** Deleting keeps ids pairwise distinct. */
  lemma {:induction false} RemoveKeepsDistinct(s: seq<Article>, id: Option<int>)
    requires DistinctIds(s)
    ensures DistinctIds(RemoveById(s, id))
  {
    if s != [] {
      RemoveKeepsDistinct(s[1..], id);
      var tail := RemoveById(s[1..], id);
      if s[0].id != id {
        var r := [s[0]] + tail;
        forall j | 0 < j < |r| ensures r[0].id != r[j].id {
          assert r[j] == tail[j - 1] && tail[j - 1] in tail;
          var m :| 0 <= m < |s| - 1 && s[1..][m] == r[j];
          assert s[0].id != s[m + 1].id;
        }
        assert forall i, j :: 0 < i < j < |r| ==> r[i] == tail[i - 1] && r[j] == tail[j - 1];
      }
    }
  }

  /** Deleting keeps the list's invariant. */
  lemma RemoveKeepsStoreValid(s: seq<Article>, id: Option<int>)
    requires StoreValid(s)
    ensures StoreValid(RemoveById(s, id))
  {
    RemoveKeepsDistinct(s, id);
  }
}
