/** `removeSafe` (main.go): drop from a list of package names those that match one of the
    caller's known-safe namespace patterns. */
module SafeFilter {
  import opened Common
  import opened GoStrings
  import opened Glob

  /** Each piece with its surrounding white space trimmed. */
  function TrimAll(pieces: seq<string>): (trimmed: seq<string>)
    ensures |trimmed| == |pieces|
    ensures forall k :: 0 <= k < |pieces| ==> trimmed[k] == TrimSpace(pieces[k])
  {
    if pieces == [] then []
    else TrimAll(pieces[..|pieces| - 1]) + [TrimSpace(pieces[|pieces| - 1])]
  }

  /** The patterns `removeSafe` builds from its `safespaces` argument: the comma-separated
      pieces, each with surrounding white space trimmed. */
  function SafeNamespaces(safespaces: string): (patterns: seq<string>)
    ensures |patterns| == Count(safespaces, ',') + 1
    ensures forall k :: 0 <= k < |patterns| ==>
              patterns[k] == [] || (!IsSpace(patterns[k][0]) && !IsSpace(patterns[k][|patterns[k]| - 1]))
  {
    SplitCount(safespaces, ',');
    TrimAll(Split(safespaces, ','))
  }

  /** Some pattern matches `p` without error. A pattern whose match fails with
      `ErrBadPattern` contributes nothing. */
  predicate Ignored(patterns: seq<string>, p: string)
  {
    exists k :: 0 <= k < |patterns| && Matches(patterns[k], p)
  }

  /** `filepath.Match(pattern, p)` reports a match without error. */
  predicate Matches(pattern: string, p: string)
  {
    Match(pattern, p) == Ok(true)
  }

  /** The names of `packages`, in order, that no pattern matches. */
  function Filtered(packages: seq<string>, patterns: seq<string>): (r: seq<string>)
    ensures |r| <= |packages|
    decreases |packages|
  {
    if packages == [] then []
    else
      var p := packages[|packages| - 1];
      Filtered(packages[..|packages| - 1], patterns) + (if Ignored(patterns, p) then [] else [p])
  }

  /** Extending the pattern list by one pattern adds the names that pattern matches. */
  lemma {:induction false} IgnoredStep(patterns: seq<string>, k: nat, p: string)
    requires k < |patterns|
    ensures Ignored(patterns[..k + 1], p) <==> Ignored(patterns[..k], p) || Matches(patterns[k], p)
  {
    if Ignored(patterns[..k + 1], p) {
      var j :| 0 <= j < k + 1 && Matches(patterns[..k + 1][j], p);
      if j < k {
        assert patterns[..k][j] == patterns[j];
      }
    }
    if Ignored(patterns[..k], p) {
      var j :| 0 <= j < k && Matches(patterns[..k][j], p);
      assert patterns[..k + 1][j] == patterns[j];
    }
    if Matches(patterns[k], p) {
      assert patterns[..k + 1][k] == patterns[k];
    }
  }

  /** The first loop of `removeSafe`: trim every comma-separated piece. */
  method TrimPieces(safeTmp: seq<string>) returns (safeNamespaces: seq<string>)
    ensures safeNamespaces == TrimAll(safeTmp)
  {
    safeNamespaces := [];
    for k := 0 to |safeTmp|
      invariant safeNamespaces == TrimAll(safeTmp[..k])
    {
      assert safeTmp[..k + 1][..k] == safeTmp[..k];
      safeNamespaces := safeNamespaces + [TrimSpace(safeTmp[k])];
    }
    assert safeTmp[..|safeTmp|] == safeTmp;
  }

  /** The inner loop of `removeSafe`: whether some pattern matches `p`, skipping the
      patterns whose match fails. */
  method IsIgnored(safeNamespaces: seq<string>, p: string) returns (ignored: bool)
    ensures ignored == Ignored(safeNamespaces, p)
  {
    ignored := false;
    for k := 0 to |safeNamespaces|
      invariant ignored == Ignored(safeNamespaces[..k], p)
    {
      var ok := Match(safeNamespaces[k], p);
      IgnoredStep(safeNamespaces, k, p);
      assert Matches(safeNamespaces[k], p) <==> ok == Ok(true);
      if ok.Err? {
        // Go reports the malformed pattern and goes on with the next one
        continue;
      }
      if ok.value {
        ignored := true;
      }
    }
    assert safeNamespaces[..|safeNamespaces|] == safeNamespaces;
  }

  /** `removeSafe(packages, safespaces)`. */
  method RemoveSafe(packages: seq<string>, safespaces: string) returns (retSlice: seq<string>)
    ensures retSlice == Filtered(packages, SafeNamespaces(safespaces))
  {
    retSlice := [];
    var safeTmp := Split(safespaces, ',');
    var safeNamespaces := TrimPieces(safeTmp);
    for i := 0 to |packages|
      invariant retSlice == Filtered(packages[..i], safeNamespaces)
    {
      var p := packages[i];
      var ignored := IsIgnored(safeNamespaces, p);
      assert packages[..i + 1][..i] == packages[..i];
      assert Filtered(packages[..i + 1], safeNamespaces)
             == Filtered(packages[..i], safeNamespaces) + (if ignored then [] else [p]);
      if !ignored {
        retSlice := retSlice + [p];
      }
    }
    assert packages[..|packages|] == packages;
  }

  // ---------------------------------------------------------------------------------
  // What the result of removeSafe is.

  /** The result keeps the surviving names in their original order. */
  lemma {:induction false} FilteredIsSubsequence(packages: seq<string>, patterns: seq<string>)
    ensures IsSubsequence(Filtered(packages, patterns), packages)
    decreases |packages|
  {
    if packages != [] {
      var init := packages[..|packages| - 1];
      var p := packages[|packages| - 1];
      FilteredIsSubsequence(init, patterns);
      var r := Filtered(packages, patterns);
      if !Ignored(patterns, p) {
        assert r[..|r| - 1] == Filtered(init, patterns);
      } else if r != [] {
        assert r == Filtered(init, patterns);
      }
    }
  }

  /** A name is in the result exactly when it is one of the packages and no pattern
      matches it: matched names are dropped and nothing else is. */
  lemma {:induction false} FilteredMembers(packages: seq<string>, patterns: seq<string>, x: string)
    ensures x in Filtered(packages, patterns) <==> x in packages && !Ignored(patterns, x)
    decreases |packages|
  {
    if packages != [] {
      var init := packages[..|packages| - 1];
      FilteredMembers(init, patterns, x);
      assert packages == init + [packages[|packages| - 1]];
    }
  }

  /** Filtering a second time with the same patterns changes nothing. */
  lemma {:induction false} FilteredIdempotent(packages: seq<string>, patterns: seq<string>)
    ensures Filtered(Filtered(packages, patterns), patterns) == Filtered(packages, patterns)
    decreases |packages|
  {
    if packages != [] {
      var init := packages[..|packages| - 1];
      var p := packages[|packages| - 1];
      FilteredIdempotent(init, patterns);
      var r := Filtered(packages, patterns);
      if !Ignored(patterns, p) {
        assert r[..|r| - 1] == Filtered(init, patterns);
        assert r[|r| - 1] == p;
      } else {
        assert r == Filtered(init, patterns);
      }
    }
  }

  /** Removing one pattern from the list changes which names are ignored only through the
      names that pattern itself matches. */
  lemma {:induction false} IgnoredWithout(patterns: seq<string>, k: nat, p: string)
    requires k < |patterns|
    ensures Ignored(patterns, p) <==> Matches(patterns[k], p) || Ignored(patterns[..k] + patterns[k + 1..], p)
  {
    if Ignored(patterns, p) && !Matches(patterns[k], p) {
      var j :| 0 <= j < |patterns| && Matches(patterns[j], p);
      IgnoredByOther(patterns, k, j, p);
    }
    if Ignored(patterns[..k] + patterns[k + 1..], p) {
      IgnoredByRest(patterns, k, p);
    }
    if Matches(patterns[k], p) {
      assert Ignored(patterns, p);
    }
  }

  /** A pattern other than the `k`-th that matches still matches once the `k`-th is removed. */
  lemma {:induction false} IgnoredByOther(patterns: seq<string>, k: nat, j: nat, p: string)
    requires k < |patterns| && j < |patterns| && j != k && Matches(patterns[j], p)
    ensures Ignored(patterns[..k] + patterns[k + 1..], p)
  {
    var rest := patterns[..k] + patterns[k + 1..];
    if j < k {
      assert rest[j] == patterns[..k][j] == patterns[j];
      assert Matches(rest[j], p);
    } else {
      assert rest[j - 1] == patterns[k + 1..][j - 1 - k] == patterns[j];
      assert Matches(rest[j - 1], p);
    }
  }

  /** A pattern that matches among the others matches in the whole list. */
  lemma {:induction false} IgnoredByRest(patterns: seq<string>, k: nat, p: string)
    requires k < |patterns| && Ignored(patterns[..k] + patterns[k + 1..], p)
    ensures Ignored(patterns, p)
  {
    var rest := patterns[..k] + patterns[k + 1..];
    var i :| 0 <= i < |rest| && Matches(rest[i], p);
    var j := if i < k then i else i + 1;
    assert rest[i] == patterns[j];
  }

  /** A malformed pattern removes nothing and does not stop the other patterns from
      applying: the result is as if it were not in the list at all. */
  lemma {:induction false} MalformedPatternIsSkipped(packages: seq<string>, patterns: seq<string>, k: nat)
    requires k < |patterns| && !WellFormed(patterns[k])
    ensures Filtered(packages, patterns) == Filtered(packages, patterns[..k] + patterns[k + 1..])
    decreases |packages|
  {
    if packages != [] {
      var p := packages[|packages| - 1];
      assert Match(patterns[k], p).Err?;
      IgnoredWithout(patterns, k, p);
      MalformedPatternIsSkipped(packages[..|packages| - 1], patterns, k);
    }
  }

  /** With no `-s` flag `safespaces` is empty: the one pattern is the empty pattern, which
      only matches the empty name, so every non-empty name is kept. */
  lemma {:induction false} EmptySafespacesKeepsNames(packages: seq<string>, x: string)
    ensures SafeNamespaces("") == [""]
    ensures x in Filtered(packages, SafeNamespaces("")) <==> x in packages && x != ""
  {
    assert Split("", ',') == [""];
    assert TrimSpace("") == "";
    LiteralMatch("", x);
    assert Ignored([""], x) <==> Matches([""][0], x);
    FilteredMembers(packages, [""], x);
  }

  /** A comma-free `safespaces` without surrounding white space is the only pattern. */
  lemma {:induction false} SinglePattern(safespaces: string)
    requires ',' !in safespaces
    requires safespaces != [] && !IsSpace(safespaces[0]) && !IsSpace(safespaces[|safespaces| - 1])
    ensures SafeNamespaces(safespaces) == [safespaces]
  {
    assert Join([safespaces], ',') == safespaces;
    SplitJoin([safespaces], ',');
    assert SpaceEnd(safespaces, 0) == 0;
    assert SpaceStart(safespaces, 0, |safespaces|) == |safespaces|;
    assert TrimSpace(safespaces) == safespaces[0..|safespaces|] == safespaces;
  }

  /** A single scope pattern such as "@internal/" followed by a star keeps exactly the names
      that are not directly under that scope, in their original order. */
  lemma {:induction false} ScopePatternFilters(packages: seq<string>, scope: string, x: string)
    requires IsLiteral(scope) && ',' !in scope
    requires scope == [] || !IsSpace(scope[0])
    ensures SafeNamespaces(scope + "*") == [scope + "*"]
    ensures x in Filtered(packages, SafeNamespaces(scope + "*"))
            <==> x in packages && !(scope <= x && Separator !in x[|scope|..])
  {
    ScopePatternAlone(scope);
    ScopePatternIgnores(scope, x);
    FilteredMembers(packages, [scope + "*"], x);
  }

  /** The scope pattern is taken as it is, as the one pattern of the list. */
  lemma {:induction false} ScopePatternAlone(scope: string)
    requires ',' !in scope
    requires scope == [] || !IsSpace(scope[0])
    ensures SafeNamespaces(scope + "*") == [scope + "*"]
  {
    var pattern := scope + "*";
    assert ',' !in pattern by {
      assert forall c :: c in pattern ==> c in scope || c == '*';
    }
    assert pattern[0] == (if scope == [] then '*' else scope[0]);
    SinglePattern(pattern);
  }

  /** The scope pattern ignores exactly the names directly under the scope. */
  lemma {:induction false} ScopePatternIgnores(scope: string, x: string)
    requires IsLiteral(scope)
    ensures Ignored([scope + "*"], x) <==> scope <= x && Separator !in x[|scope|..]
  {
    PrefixStarMatch(scope, x);
    assert Ignored([scope + "*"], x) <==> Matches([scope + "*"][0], x);
  }
}
