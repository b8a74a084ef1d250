/** Turning a schema-validation failure into the per-field error map the forms display.
    Both forms do this the same way: every issue whose path starts with a non-empty field name
    writes its message under that name, so a later issue on the same field overwrites an earlier one. */
module FormErrors {
  import opened Wrappers

  /** One validation issue: the path of the offending value and the message to show. */
  datatype Issue = Issue(path: seq<string>, message: string)

  /** The field an issue is filed under: the first path element, when it is a non-empty name. */
  function Field(issue: Issue): (f: Option<string>)
    ensures f.Some? <==> |issue.path| > 0 && issue.path[0] != ""
    ensures f.Some? ==> f.value == issue.path[0]
  {
    if |issue.path| > 0 && issue.path[0] != "" then Some(issue.path[0]) else None
  }

  /** The error map after the issues have been applied in order (the last write to a field wins). */
  function ErrorMap(issues: seq<Issue>): (errors: map<string, string>)
    ensures |errors| <= |issues|
    decreases |issues|
  {
    if issues == [] then map[]
    else
      var m := ErrorMap(issues[..|issues| - 1]);
      var last := issues[|issues| - 1];
      match Field(last)
      case Some(f) => m[f := last.message]
      case None => m
  }

  /** A field has an entry exactly when some issue is filed under it. */
  lemma {:induction false} ErrorMapKeys(issues: seq<Issue>, f: string)
    ensures f in ErrorMap(issues) <==> exists i :: 0 <= i < |issues| && Field(issues[i]) == Some(f)
    decreases |issues|
  {
    if issues != [] {
      var init := issues[..|issues| - 1];
      ErrorMapKeys(init, f);
      if exists i :: 0 <= i < |issues| && Field(issues[i]) == Some(f) {
        var i :| 0 <= i < |issues| && Field(issues[i]) == Some(f);
        if i < |init| {
          assert Field(init[i]) == Some(f);
        }
      }
      if exists i :: 0 <= i < |init| && Field(init[i]) == Some(f) {
        var i :| 0 <= i < |init| && Field(init[i]) == Some(f);
        assert Field(issues[i]) == Some(f);
      }
    }
  }

  /** The entry of a field is the message of the last issue filed under it. */
  lemma {:induction false} ErrorMapLastWins(issues: seq<Issue>, i: nat)
    requires i < |issues| && Field(issues[i]).Some?
    requires forall j :: i < j < |issues| ==> Field(issues[j]) != Field(issues[i])
    ensures Field(issues[i]).value in ErrorMap(issues)
    ensures ErrorMap(issues)[Field(issues[i]).value] == issues[i].message
    decreases |issues|
  {
    var init := issues[..|issues| - 1];
    if i < |init| {
      forall j | i < j < |init| ensures Field(init[j]) != Field(init[i]) {
        assert init[j] == issues[j];
      }
      ErrorMapLastWins(init, i);
    }
  }

  /** Appending one issue applies its write on top of the earlier ones. */
  lemma ErrorMapSnoc(issues: seq<Issue>, x: Issue)
    ensures ErrorMap(issues + [x]) == match Field(x)
                                     case Some(f) => ErrorMap(issues)[f := x.message]
                                     case None => ErrorMap(issues)
  {
    assert (issues + [x])[..|issues|] == issues;
  }

  /** One issue with a field gives a one-entry map. */
  lemma ErrorMapOfOne(a: Issue)
    requires Field(a).Some?
    ensures ErrorMap([a]) == map[Field(a).value := a.message]
  {
    assert [a][..0] == [];
  }

  /** Two issues with fields: the second write lands last. */
  lemma ErrorMapOfTwo(a: Issue, b: Issue)
    requires Field(a).Some? && Field(b).Some?
    ensures ErrorMap([a, b]) == map[Field(a).value := a.message][Field(b).value := b.message]
  {
    assert [a, b][..1] == [a];
    ErrorMapOfOne(a);
  }

  /** The `forEach` over the issues that fills a fresh map, one write per issue with a field. */
  method CollectErrors(issues: seq<Issue>) returns (errors: map<string, string>)
    ensures errors == ErrorMap(issues)
  {
    errors := map[];
    var i := 0;
    while i < |issues|
      invariant 0 <= i <= |issues|
      invariant errors == ErrorMap(issues[..i])
    {
      var issue := issues[i];
      var f := Field(issue);
      if f.Some? {
        errors := errors[f.value := issue.message];
      }
      assert issues[..i + 1][..i] == issues[..i];
      i := i + 1;
    }
    assert issues[..i] == issues;
  }
}
