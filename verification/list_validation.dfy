/** The web application's own list creation: `error_for_list_name` checks a
    name against the lists held in the session, and the `post '/lists'`
    handler strips the submitted name, validates it and appends a new list. */
module ListValidation {
  import opened Basics

  const LengthError: string := "List name must be between 1 and 100 characters."
  const UniqueError: string := "List name must be unique."

  /** A list as the handler stores it: a name and its todos (none at creation). */
  datatype AppList = AppList(name: string, todos: seq<string>)

  /** The characters `strip` removes from either end. */
  predicate IsWhitespace(c: char) {
    c == ' ' || c == '\t' || c == '\n' || c == '\U{B}' || c == '\U{C}' || c == '\r' || c == '\0'
  }

  /** Drop leading whitespace. */
  function TrimStart(s: string): (r: string)
    ensures |r| <= |s| && r == s[|s| - |r|..]
    ensures forall k :: 0 <= k < |s| - |r| ==> IsWhitespace(s[k])
    ensures |r| > 0 ==> !IsWhitespace(r[0])
    decreases |s|
  {
    if |s| > 0 && IsWhitespace(s[0]) then
      var r := TrimStart(s[1..]);
      assert s[1..][|s| - 1 - |r|..] == s[|s| - |r|..];
      assert forall k :: 1 <= k < |s| - |r| ==> s[k] == s[1..][k - 1];
      r
    else s
  }

  /** Drop trailing whitespace. */
  function TrimEnd(s: string): (r: string)
    ensures |r| <= |s| && r == s[..|r|]
    ensures forall k :: |r| <= k < |s| ==> IsWhitespace(s[k])
    ensures |r| > 0 ==> !IsWhitespace(r[|r| - 1])
    decreases |s|
  {
    if |s| > 0 && IsWhitespace(s[|s| - 1]) then
      var r := TrimEnd(s[..|s| - 1]);
      assert s[..|s| - 1][..|r|] == s[..|r|];
      assert forall k :: |r| <= k < |s| - 1 ==> s[k] == s[..|s| - 1][k];
      r
    else s
  }

  /** Ruby's `String#strip`: the input with whitespace cut from both ends. */
  function Strip(s: string): (r: string)
    ensures |r| <= |s|
    ensures |r| > 0 ==> !IsWhitespace(r[0]) && !IsWhitespace(r[|r| - 1])
  {
    TrimEnd(TrimStart(s))
  }

  /** Cutting a suffix of whitespace from the part after position `i`
      leaves a slice of the whole, followed only by whitespace. */
  lemma TrailingCut(s: string, i: nat, front: string, r: string)
    requires i <= |s| && front == s[i..]
    requires |r| <= |front| && r == front[..|r|]
    requires forall k :: |r| <= k < |front| ==> IsWhitespace(front[k])
    ensures i + |r| <= |s| && r == s[i..i + |r|]
    ensures forall k :: i + |r| <= k < |s| ==> IsWhitespace(s[k])
  {
    forall k | i + |r| <= k < |s|
      ensures IsWhitespace(s[k])
    {
      assert s[k] == front[k - i];
    }
  }

  /** `strip` only cuts whitespace, and only from the two ends: the result is
      the slice of the input that starts after the leading whitespace. */
  lemma StripCutsOnlyWhitespace(s: string)
    ensures var i := |s| - |TrimStart(s)|;
            && i + |Strip(s)| <= |s| && Strip(s) == s[i..i + |Strip(s)|]
            && (forall k :: 0 <= k < i ==> IsWhitespace(s[k]))
            && (forall k :: i + |Strip(s)| <= k < |s| ==> IsWhitespace(s[k]))
  {
    var front := TrimStart(s);
    var i := |s| - |front|;
    var r := TrimEnd(front);
    assert Strip(s) == r;
    TrailingCut(s, i, front, r);
  }

  /** `error_for_list_name`: the length message for a name outside 1..100
      characters, else the uniqueness message when a list already has exactly
      that name, else no error. */
  function ErrorForListName(name: string, lists: seq<AppList>): (r: Option<string>)
    ensures r.None? <==> 1 <= |name| <= 100 && forall l :: l in lists ==> l.name != name
    ensures !(1 <= |name| <= 100) ==> r == Some(LengthError)
    ensures 1 <= |name| <= 100 && (exists l :: l in lists && l.name == name) ==> r == Some(UniqueError)
  {
    if !(1 <= |name| <= 100) then Some(LengthError)
    else if exists l :: l in lists && l.name == name then Some(UniqueError)
    else None
  }

  /** What the handler leaves behind: the error it reported, if any, and the lists. */
  datatype CreateOutcome = CreateOutcome(error: Option<string>, lists: seq<AppList>)

  /** The state effect of `post '/lists'`: validate the stripped name; on an
      error keep the lists, otherwise append an empty list of that name. */
  function CreateList(submitted: string, lists: seq<AppList>): (r: CreateOutcome)
    ensures r.error == ErrorForListName(Strip(submitted), lists)
    ensures r.error.Some? ==> r.lists == lists
    ensures r.error.None? ==> r.lists == lists + [AppList(Strip(submitted), [])]
  {
    var name := Strip(submitted);
    match ErrorForListName(name, lists)
    case Some(e) => CreateOutcome(Some(e), lists)
    case None => CreateOutcome(None, lists + [AppList(name, [])])
  }

  predicate DifferentNames(a: AppList, b: AppList) {
    a.name != b.name
  }

  /** Stripping twice is stripping once. */
  lemma StripIdempotent(s: string)
    ensures Strip(Strip(s)) == Strip(s)
  {
    var r := Strip(s);
    if |r| > 0 {
      assert TrimStart(r) == r;
      assert TrimEnd(r) == r;
    }
  }

  /** A name with no whitespace at either end is its own stripped form. */
  lemma StripKeepsTrimmedName(s: string)
    requires |s| > 0 ==> !IsWhitespace(s[0]) && !IsWhitespace(s[|s| - 1])
    ensures Strip(s) == s
  {
  }

  /** Whatever the existing lists, a name of length 0 or above 100 gets the
      length message: the length check comes before the uniqueness check. */
  lemma LengthCheckFirst(name: string, lists: seq<AppList>, others: seq<AppList>)
    requires |name| == 0 || |name| > 100
    ensures ErrorForListName(name, lists) == ErrorForListName(name, others) == Some(LengthError)
  {
  }

  /** A successful creation keeps list names pairwise distinct. */
  lemma CreateListKeepsNamesDistinct(submitted: string, lists: seq<AppList>)
    requires Pairwise(lists, DifferentNames)
    ensures Pairwise(CreateList(submitted, lists).lists, DifferentNames)
  {
    var r := CreateList(submitted, lists);
    if r.error.None? {
      PairwiseAppend(lists, AppList(Strip(submitted), []), DifferentNames);
    }
  }

  /** After a successful creation exactly one list carries the new name. */
  lemma CreateListNameUnique(submitted: string, lists: seq<AppList>)
    requires CreateList(submitted, lists).error.None?
    ensures var r := CreateList(submitted, lists).lists;
            forall k :: 0 <= k < |r| ==> (r[k].name == Strip(submitted) <==> k == |lists|)
  {
    var r := CreateList(submitted, lists).lists;
    forall k | 0 <= k < |lists|
      ensures r[k].name != Strip(submitted)
    {
      assert r[k] == lists[k];
      assert lists[k] in lists;
    }
  }
}
