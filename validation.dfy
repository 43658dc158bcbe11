/**
 * Required-field validation of the article form: the JavaScript `trim` the form
 * applies to each field, and the error map `validateForm` builds from it.
 */
module Validation {

  /** The three fields of the form, and the keys of its error map. */
  datatype Field = Title | BriefDescription | DetailedDescription

  /** The messages the form stores under each key (French, as the application shows them). */
  const TitleRequired: string := "Le titre est obligatoire"
  const BriefRequired: string := "La description br\U{e8}ve est obligatoire"
  const DetailedRequired: string := "La description compl\U{e8}te est obligatoire"

  function Message(f: Field): string
  {
    match f
    case Title => TitleRequired
    case BriefDescription => BriefRequired
    case DetailedDescription => DetailedRequired
  }

  /**
   * The characters `String.prototype.trim` strips: ECMAScript WhiteSpace (tab,
   * vertical tab, form feed, space, no-break space, byte order mark and the
   * other space separators) and LineTerminator (line feed, carriage return,
   * line and paragraph separators).
   */
  predicate IsWhitespace(c: char)
  {
    var n := c as int;
    || n == 0x09 || n == 0x0B || n == 0x0C || n == 0x20 || n == 0xA0 || n == 0xFEFF
    || n == 0x1680 || (0x2000 <= n <= 0x200A) || n == 0x202F || n == 0x205F || n == 0x3000
    || n == 0x0A || n == 0x0D || n == 0x2028 || n == 0x2029
  }

  /** Every character of `s` is whitespace (vacuously so for the empty string). */
  predicate AllWhitespace(s: string)
  {
    forall i :: 0 <= i < |s| ==> IsWhitespace(s[i])
  }

  /** Leading whitespace removed: the longest suffix of `s` that does not start with whitespace. */
  function TrimStart(s: string): (r: string)
    ensures |r| <= |s| && r == s[|s| - |r|..]
    ensures r == [] || !IsWhitespace(r[0])
    ensures forall i :: 0 <= i < |s| - |r| ==> IsWhitespace(s[i])
  {
    if |s| > 0 && IsWhitespace(s[0]) then TrimStart(s[1..]) else s
  }

  /** Trailing whitespace removed: the longest prefix of `s` that does not end with whitespace. */
  function TrimEnd(s: string): (r: string)
    ensures |r| <= |s| && r == s[..|r|]
    ensures r == [] || !IsWhitespace(r[|r| - 1])
    ensures forall i :: |r| <= i < |s| ==> IsWhitespace(s[i])
  {
    if |s| > 0 && IsWhitespace(s[|s| - 1]) then TrimEnd(s[..|s| - 1]) else s
  }

  /**
   * `s.trim()`: the slice of `s` left once its leading and trailing whitespace
   * is removed; only whitespace is removed, and none is left at either end.
   */
  function Trim(s: string): (r: string)
    ensures exists i :: (0 <= i <= |s| - |r| && r == s[i..][..|r|]
                         && (forall j :: 0 <= j < i ==> IsWhitespace(s[j]))
                         && (forall j :: i + |r| <= j < |s| ==> IsWhitespace(s[j])))
    ensures r == [] || (!IsWhitespace(r[0]) && !IsWhitespace(r[|r| - 1]))
  {
    var t := TrimStart(s);
    var r := TrimEnd(t);
    TrimEndInside(s, t, r);
    r
  }

  /** What `TrimEnd` strips from a suffix `t` of `s` is trailing whitespace of `s` itself. */
  lemma TrimEndInside(s: string, t: string, r: string)
    requires |t| <= |s| && t == s[|s| - |t|..]
    requires |r| <= |t| && r == t[..|r|]
    requires forall j :: |r| <= j < |t| ==> IsWhitespace(t[j])
    ensures r == s[|s| - |t|..][..|r|]
    ensures forall j :: |s| - |t| + |r| <= j < |s| ==> IsWhitespace(s[j])
  {
    var i := |s| - |t|;
    forall j | i + |r| <= j < |s| ensures IsWhitespace(s[j]) {
      assert s[j] == t[j - i];
    }
  }

  /** `!s.trim()` in JavaScript: the trimmed text is the empty (falsy) string. */
  predicate IsBlank(s: string)
  {
    Trim(s) == []
  }

  /** Trimming leaves nothing exactly when every character is whitespace. */
  lemma BlankIffAllWhitespace(s: string)
    ensures IsBlank(s) <==> AllWhitespace(s)
  {
  }

  /**
   * `validateForm`'s error map: one entry, carrying that field's message, for
   * each field whose trimmed text is empty.
   */
  function Validate(title: string, brief: string, detailed: string): (errors: map<Field, string>)
    ensures Title in errors <==> IsBlank(title)
    ensures BriefDescription in errors <==> IsBlank(brief)
    ensures DetailedDescription in errors <==> IsBlank(detailed)
    ensures forall f :: f in errors ==> errors[f] == Message(f)
  {
    var e0 := map[];
    var e1 := if IsBlank(title) then e0[Title := TitleRequired] else e0;
    var e2 := if IsBlank(brief) then e1[BriefDescription := BriefRequired] else e1;
    if IsBlank(detailed) then e2[DetailedDescription := DetailedRequired] else e2
  }

  /** The three texts pass validation. */
  predicate IsValid(title: string, brief: string, detailed: string)
  {
    !IsBlank(title) && !IsBlank(brief) && !IsBlank(detailed)
  }

  /** The form is valid (the map has no keys) iff no field is blank. */
  lemma ValidateEmptyIff(title: string, brief: string, detailed: string)
    ensures |Validate(title, brief, detailed)| == 0 <==> IsValid(title, brief, detailed)
  {
    var errors := Validate(title, brief, detailed);
    if |errors| == 0 {
      assert Title !in errors && BriefDescription !in errors && DetailedDescription !in errors;
    } else {
      var f :| f in errors;
      assert f == Title || f == BriefDescription || f == DetailedDescription;
    }
  }

  /** Only the title blank: the map holds the title error and nothing else. */
  lemma {:induction false} OnlyTitleBlank(title: string, brief: string, detailed: string)
    requires IsBlank(title) && !IsBlank(brief) && !IsBlank(detailed)
    ensures Validate(title, brief, detailed) == map[Title := TitleRequired]
  {
    var errors := Validate(title, brief, detailed);
    assert errors.Keys == {Title} by {
      forall f | f in errors ensures f == Title {
        assert f == Title || f == BriefDescription || f == DetailedDescription;
      }
    }
  }

  /** The scenario of an empty title beside two filled fields. */
  lemma EmptyTitleScenario()
    ensures Validate("", "B", "C") == map[Title := TitleRequired]
  {
    assert !IsWhitespace("B"[0]) && !IsWhitespace("C"[0]);
    BlankIffAllWhitespace("");
    BlankIffAllWhitespace("B");
    BlankIffAllWhitespace("C");
    OnlyTitleBlank("", "B", "C");
  }
}
