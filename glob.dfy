/** Go's `path/filepath.Match(pattern, name)` on a system whose separator is '/', following
    the algorithm of the Go standard library (Go 1.16 and later): the pattern is cut into
    chunks, each a run of non-star pattern text preceded by optional stars; a chunk is matched
    at the leftmost position a star allows, without backtracking into earlier stars; and when
    the match fails the rest of the pattern is still checked for syntax errors.

    Pattern syntax: `*` matches any run of non-'/' characters, `?` one non-'/' character,
    `[...]` one character of a class (`[^...]` negates it, `a-z` is a range), and `\c`
    matches `c` literally. */
module Glob {
  import opened Common

  /** `filepath.ErrBadPattern`, the only error `Match` returns. */
  datatype PatternError = ErrBadPattern

  const Separator: char := '/'

  /** What `scanChunk` returns: whether stars led the chunk, the chunk, and the rest. */
  datatype Chunk = Chunk(star: bool, chunk: string, rest: string)

  /** What `matchChunk` returns: the unconsumed name on success, a plain mismatch, or a
      malformed chunk. */
  datatype ChunkMatch = Matched(rest: string) | NoMatch | BadChunk

  /** The pattern without its leading stars. */
  function SkipStars(p: string): (r: string)
    ensures |r| <= |p| && r == p[|p| - |r|..]
    ensures r == [] || r[0] != '*'
    ensures |r| < |p| <==> (p != [] && p[0] == '*')
    ensures forall k :: 0 <= k < |p| - |r| ==> p[k] == '*'
  {
    if p != [] && p[0] == '*' then SkipStars(p[1..]) else p
  }

  /** The scan loop of `scanChunk`: the index of the first star outside a bracket, where a
      backslash hides the character after it. */
  function ChunkEnd(p: string, i: nat, inRange: bool): (r: nat)
    requires i <= |p|
    ensures i <= r <= |p|
    ensures r == |p| || p[r] == '*'
    ensures i < |p| && p[i] != '*' ==> i < r
    decreases |p| - i
  {
    if i == |p| then i
    else if p[i] == '\\' then (if i + 1 < |p| then ChunkEnd(p, i + 2, inRange) else ChunkEnd(p, i + 1, inRange))
    else if p[i] == '[' then ChunkEnd(p, i + 1, true)
    else if p[i] == ']' then ChunkEnd(p, i + 1, false)
    else if p[i] == '*' && !inRange then i
    else ChunkEnd(p, i + 1, inRange)
  }

  /** `scanChunk`: a non-empty pattern always gets shorter, and an empty chunk only
      happens at the end of the pattern. */
  function ScanChunk(pattern: string): (r: Chunk)
    ensures pattern != [] ==> |r.rest| < |pattern|
    ensures r.chunk == [] ==> r.rest == []
    ensures r.star <==> (pattern != [] && pattern[0] == '*')
  {
    var s := SkipStars(pattern);
    var i := ChunkEnd(s, 0, false);
    Chunk(|s| < |pattern|, s[..i], s[i..])
  }

  /** `getEsc`: one possibly escaped character of a bracket expression, which must be
      followed by more pattern text. */
  function GetEsc(chunk: string): (r: Option<(char, string)>)
    ensures r.Some? ==> r.value.1 != [] && |r.value.1| < |chunk|
  {
    if chunk == [] || chunk[0] == '-' || chunk[0] == ']' then None
    else
      var c := if chunk[0] == '\\' then chunk[1..] else chunk;
      if c == [] || c[1..] == [] then None
      else Some((c[0], c[1..]))
  }

  /** The range loop of `matchChunk`: ranges up to the closing bracket, which may not come
      before the first range. */
  function ParseRanges(chunk: string, ranges: seq<(char, char)>): (r: Option<(seq<(char, char)>, string)>)
    ensures r.Some? ==> |r.value.1| < |chunk|
    decreases |chunk|
  {
    if chunk != [] && chunk[0] == ']' && |ranges| > 0 then Some((ranges, chunk[1..]))
    else
      match GetEsc(chunk)
      case None => None
      case Some((lo, afterLo)) =>
        if afterLo[0] == '-' then
          (match GetEsc(afterLo[1..])
           case None => None
           case Some((hi, afterHi)) => ParseRanges(afterHi, ranges + [(lo, hi)]))
        else ParseRanges(afterLo, ranges + [(lo, lo)])
  }

  predicate InRanges(ranges: seq<(char, char)>, c: char)
  {
    exists k :: 0 <= k < |ranges| && ranges[k].0 <= c <= ranges[k].1
  }

  /** `matchChunk` from a state in which the match may already have failed: after a
      failure the rest of the chunk is still parsed, so that syntax errors are reported. */
  function MatchChunkFrom(chunk: string, s: string, failed: bool): (r: ChunkMatch)
    ensures r.Matched? ==> !failed && |r.rest| <= |s| && r.rest == s[|s| - |r.rest|..]
    decreases |chunk|, 1
  {
    if chunk == [] then (if failed then NoMatch else Matched(s))
    else
      var failed := failed || s == [];
      if chunk[0] == '[' then MatchClass(chunk, s, failed)
      else if chunk[0] == '?' then
        if failed then MatchChunkFrom(chunk[1..], s, true)
        else MatchChunkFrom(chunk[1..], s[1..], s[0] == Separator)
      else if chunk[0] == '\\' && |chunk| == 1 then BadChunk
      else
        var lit := if chunk[0] == '\\' then chunk[1] else chunk[0];
        var after := if chunk[0] == '\\' then chunk[2..] else chunk[1..];
        if failed then MatchChunkFrom(after, s, true)
        else MatchChunkFrom(after, s[1..], lit != s[0])
  }

  /** The `[` case of `matchChunk`: one character of `s` against a class, which may be
      negated with `^`; the class is parsed even after a failure. */
  function MatchClass(chunk: string, s: string, failed: bool): (r: ChunkMatch)
    requires chunk != [] && chunk[0] == '['
    requires !failed ==> s != []
    ensures r.Matched? ==> !failed && |r.rest| <= |s| && r.rest == s[|s| - |r.rest|..]
    decreases |chunk|, 0
  {
    var c := if failed then '\0' else s[0];
    var s' := if failed then s else s[1..];
    var negated := |chunk| > 1 && chunk[1] == '^';
    var body := if negated then chunk[2..] else chunk[1..];
    match ParseRanges(body, [])
    case None => BadChunk
    case Some((ranges, rest)) => MatchChunkFrom(rest, s', failed || InRanges(ranges, c) == negated)
  }

  /** `matchChunk(chunk, s)`. */
  function MatchChunk(chunk: string, s: string): (r: ChunkMatch)
    ensures r.Matched? ==> |r.rest| <= |s| && r.rest == s[|s| - |r.rest|..]
  {
    MatchChunkFrom(chunk, s, false)
  }

  /** The star loop of `Match`: try the chunk after skipping `i + 1` more characters, never
      skipping a separator; the last chunk must use up the name. */
  function StarSearch(chunk: string, name: string, i: nat, last: bool): (r: ChunkMatch)
    ensures r.Matched? ==> |r.rest| < |name| - i && r.rest == name[|name| - |r.rest|..]
    ensures r.Matched? && last ==> r.rest == []
    decreases |name| - i
  {
    if i >= |name| || name[i] == Separator then NoMatch
    else
      match MatchChunk(chunk, name[i + 1..])
      case Matched(t) => if last && t != [] then StarSearch(chunk, name, i + 1, last) else Matched(t)
      case BadChunk => BadChunk
      case NoMatch => StarSearch(chunk, name, i + 1, last)
  }

  /** The final loop of `Match`: before answering false, check that the remaining chunks are
      well formed. */
  function CheckRest(pattern: string): (r: Result<bool, PatternError>)
    ensures r != Ok(true)
    decreases |pattern|
  {
    if pattern == [] then Ok(false)
    else
      var c := ScanChunk(pattern);
      if MatchChunk(c.chunk, "").BadChunk? then Err(ErrBadPattern) else CheckRest(c.rest)
  }

  /** `filepath.Match(pattern, name)`. It reports `ErrBadPattern` exactly when some chunk of
      the pattern is malformed, whatever the name: the chunks a match does not reach are still
      checked. */
  function Match(pattern: string, name: string): (r: Result<bool, PatternError>)
    ensures r.Err? <==> !WellFormed(pattern)
    decreases |pattern|
  {
    if pattern == [] then Ok(name == [])
    else
      var c := ScanChunk(pattern);
      WellFormedStep(pattern);
      if c.star && c.chunk == [] then
        assert MatchChunk(c.chunk, "") == Matched("");
        Ok(Separator !in name)
      else
        BadChunkIgnoresName(c.chunk, name, false);
        BadChunkIgnoresName(c.chunk, "", false);
        var m := MatchChunk(c.chunk, name);
        if m.Matched? && (m.rest == [] || c.rest != []) then Match(c.rest, m.rest)
        else if m.BadChunk? then Err(ErrBadPattern)
        else if c.star then
          StarSearchNotBad(c.chunk, name, 0, c.rest == []);
          (match StarSearch(c.chunk, name, 0, c.rest == [])
           case Matched(t) => Match(c.rest, t)
           case BadChunk => Err(ErrBadPattern)
           case NoMatch => CheckRest(c.rest))
        else CheckRest(c.rest)
  }

  /** The pattern is syntactically valid: no chunk of it is malformed. */
  predicate WellFormed(pattern: string)
  {
    CheckRest(pattern).Ok?
  }

  // ---------------------------------------------------------------------------------
  // Whether a pattern is malformed depends on the pattern alone.

  lemma {:induction false} BadChunkIgnoresName(chunk: string, s: string, failed: bool)
    ensures MatchChunkFrom(chunk, s, failed).BadChunk? == MatchChunkFrom(chunk, "", true).BadChunk?
    decreases |chunk|
  {
    if chunk != [] {
      var f := failed || s == [];
      if chunk[0] == '[' {
        var negated := |chunk| > 1 && chunk[1] == '^';
        var body := if negated then chunk[2..] else chunk[1..];
        match ParseRanges(body, [])
        case None =>
        case Some((ranges, rest)) =>
          var c := if f then '\0' else s[0];
          var s' := if f then s else s[1..];
          BadChunkIgnoresName(rest, s', f || InRanges(ranges, c) == negated);
          BadChunkIgnoresName(rest, "", true);
      } else if chunk[0] == '?' {
        if f {
          BadChunkIgnoresName(chunk[1..], s, true);
        } else {
          BadChunkIgnoresName(chunk[1..], s[1..], s[0] == Separator);
        }
        BadChunkIgnoresName(chunk[1..], "", true);
      } else if !(chunk[0] == '\\' && |chunk| == 1) {
        var lit := if chunk[0] == '\\' then chunk[1] else chunk[0];
        var after := if chunk[0] == '\\' then chunk[2..] else chunk[1..];
        if f {
          BadChunkIgnoresName(after, s, true);
        } else {
          BadChunkIgnoresName(after, s[1..], lit != s[0]);
        }
        BadChunkIgnoresName(after, "", true);
      }
    }
  }

  lemma {:induction false} StarSearchNotBad(chunk: string, name: string, i: nat, last: bool)
    requires !MatchChunk(chunk, "").BadChunk?
    ensures !StarSearch(chunk, name, i, last).BadChunk?
    decreases |name| - i
  {
    if i < |name| && name[i] != Separator {
      BadChunkIgnoresName(chunk, name[i + 1..], false);
      BadChunkIgnoresName(chunk, "", false);
      StarSearchNotBad(chunk, name, i + 1, last);
    }
  }

  /** One step of `CheckRest`: a non-empty pattern is well formed when its first chunk is
      and the rest of the pattern is. */
  lemma {:induction false} WellFormedStep(pattern: string)
    requires pattern != []
    ensures WellFormed(pattern)
            <==> !MatchChunk(ScanChunk(pattern).chunk, "").BadChunk? && WellFormed(ScanChunk(pattern).rest)
  {
  }

  // ---------------------------------------------------------------------------------
  // Patterns without special characters.

  predicate IsMeta(c: char)
  {
    c == '*' || c == '?' || c == '[' || c == '\\'
  }

  /** A pattern none of whose characters is special. */
  predicate IsLiteral(p: string)
  {
    forall i :: 0 <= i < |p| ==> !IsMeta(p[i])
  }

  lemma {:induction false} ChunkEndOverLiteral(p: string, i: nat, j: nat)
    requires i <= j <= |p|
    requires forall k :: i <= k < j ==> !IsMeta(p[k])
    requires j == |p| || p[j] == '*'
    ensures ChunkEnd(p, i, false) == j
    decreases j - i
  {
    if i < j {
      ChunkEndOverLiteral(p, i + 1, j);
    }
  }

  lemma {:induction false} LiteralMatchChunk(lit: string, s: string, failed: bool)
    requires IsLiteral(lit)
    ensures MatchChunkFrom(lit, s, failed)
            == if !failed && lit <= s then Matched(s[|lit|..]) else NoMatch
    decreases |lit|
  {
    if lit != [] {
      assert !IsMeta(lit[0]);
      assert IsLiteral(lit[1..]) by {
        forall k | 0 <= k < |lit[1..]| ensures !IsMeta(lit[1..][k]) {
          assert lit[1..][k] == lit[k + 1];
        }
      }
      if failed || s == [] {
        LiteralMatchChunk(lit[1..], s, true);
      } else {
        LiteralMatchChunk(lit[1..], s[1..], lit[0] != s[0]);
        if lit[0] == s[0] {
          assert lit <= s <==> lit[1..] <= s[1..];
          assert lit <= s ==> s[1..][|lit| - 1..] == s[|lit|..];
        }
      }
    }
  }

  lemma {:induction false} LiteralSkipsWhenFailed(lit: string, rest: string, s: string)
    requires IsLiteral(lit)
    ensures MatchChunkFrom(lit + rest, s, true) == MatchChunkFrom(rest, s, true)
    decreases |lit|
  {
    if lit != [] {
      assert !IsMeta(lit[0]);
      assert IsLiteral(lit[1..]) by {
        forall k | 0 <= k < |lit[1..]| ensures !IsMeta(lit[1..][k]) {
          assert lit[1..][k] == lit[k + 1];
        }
      }
      var chunk := lit + rest;
      assert chunk[0] == lit[0] && chunk != [];
      assert chunk[1..] == lit[1..] + rest;
      assert MatchChunkFrom(chunk, s, true) == MatchChunkFrom(chunk[1..], s, true);
      LiteralSkipsWhenFailed(lit[1..], rest, s);
    } else {
      assert lit + rest == rest;
    }
  }

  /** A pattern without special characters matches exactly the name equal to it. */
  lemma {:induction false} LiteralMatch(lit: string, name: string)
    requires IsLiteral(lit)
    ensures Match(lit, name) == Ok(lit == name)
  {
    if lit != [] {
      assert !IsMeta(lit[0]);
      ChunkEndOverLiteral(lit, 0, |lit|);
      var c := ScanChunk(lit);
      assert c == Chunk(false, lit, []);
      LiteralMatchChunk(lit, name, false);
      if lit <= name && name[|lit|..] == [] {
        assert lit == name;
      }
    }
  }

  /** A lone star matches the names without a separator. */
  lemma {:induction false} StarMatch(name: string)
    ensures Match("*", name) == Ok(Separator !in name)
  {
    assert ScanChunk("*") == Chunk(true, [], []);
  }

  /** `L*` with a literal prefix `L` matches the names that start with `L` and have no
      separator after it: the form of a namespace pattern such as the pattern "@internal/"
      followed by a star. */
  lemma {:induction false} PrefixStarMatch(lit: string, name: string)
    requires IsLiteral(lit)
    ensures Match(lit + "*", name) == Ok(lit <= name && Separator !in name[|lit|..])
  {
    var p := lit + "*";
    if lit == [] {
      assert p == "*";
      StarMatch(name);
    } else {
      assert !IsMeta(p[0]);
      assert SkipStars(p) == p;
      ChunkEndOverLiteral(p, 0, |lit|);
      assert p[..|lit|] == lit && p[|lit|..] == "*";
      var c := ScanChunk(p);
      assert c == Chunk(false, lit, "*");
      LiteralMatchChunk(lit, name, false);
      var m := MatchChunk(lit, name);
      if lit <= name {
        assert Match(p, name) == Match("*", name[|lit|..]);
        StarMatch(name[|lit|..]);
      } else {
        assert m == NoMatch;
        assert Match(p, name) == CheckRest("*");
        assert CheckRest("*") == Ok(false) by {
          assert ScanChunk("*") == Chunk(true, [], []);
          assert MatchChunk([], "") == Matched("");
        }
      }
    }
  }

  /** A lone `?` matches exactly the one-character names other than the separator. */
  lemma {:induction false} QuestionMatch(name: string)
    ensures Match("?", name) == Ok(|name| == 1 && name[0] != Separator)
  {
    var p := "?";
    assert ScanChunk(p) == Chunk(false, p, []) by {
      assert SkipStars(p) == p;
      assert ChunkEnd(p, 1, false) == 1;
    }
    assert p[1..] == [];
    if name == [] {
      assert MatchChunk(p, name) == MatchChunkFrom([], name, true);
    } else {
      assert MatchChunk(p, name) == MatchChunkFrom([], name[1..], name[0] == Separator);
    }
    SingleChunkMatch(p, name);
  }

  /** An escaped character matches exactly the name made of that character alone. */
  lemma {:induction false} EscapeMatch(c: char, name: string)
    ensures Match(['\\', c], name) == Ok(name == [c])
  {
    var p := ['\\', c];
    assert ScanChunk(p) == Chunk(false, p, []) by {
      assert SkipStars(p) == p;
      assert ChunkEnd(p, 2, false) == 2;
    }
    assert p[2..] == [];
    if name == [] {
      assert MatchChunk(p, name) == MatchChunkFrom([], name, true);
    } else {
      assert MatchChunk(p, name) == MatchChunkFrom([], name[1..], c != name[0]);
      assert name == [c] <==> name[0] == c && name[1..] == [];
    }
    SingleChunkMatch(p, name);
  }

  /** A class `[lo-hi]` matches exactly the one-character names in the range. */
  lemma {:induction false} ClassMatch(lo: char, hi: char, name: string)
    requires lo !in "-]\\^*[" && hi !in "-]\\*["
    ensures Match(['[', lo, '-', hi, ']'], name) == Ok(|name| == 1 && lo <= name[0] <= hi)
  {
    var p := ['[', lo, '-', hi, ']'];
    assert ScanChunk(p) == Chunk(false, p, []) by {
      assert SkipStars(p) == p;
      assert ChunkEnd(p, 5, true) == 5;
      assert ChunkEnd(p, 1, true) == 5;
    }
    assert p[1..] == [lo, '-', hi, ']'];
    ClassRanges(lo, hi);
    var failed := name == [];
    var c := if failed then '\0' else name[0];
    var rest := if failed then name else name[1..];
    assert InRanges([(lo, hi)], c) <==> lo <= c <= hi by {
      if lo <= c <= hi {
        assert [(lo, hi)][0].0 <= c <= [(lo, hi)][0].1;
      }
    }
    assert MatchChunk(p, name) == MatchClass(p, name, failed);
    assert MatchChunk(p, name) == MatchChunkFrom([], rest, failed || !(lo <= c <= hi));
    SingleChunkMatch(p, name);
  }

  /** The body of a one-range class parses to that range and uses up the chunk. */
  lemma {:induction false} ClassRanges(lo: char, hi: char)
    requires lo !in "-]\\^*[" && hi !in "-]\\*["
    ensures ParseRanges([lo, '-', hi, ']'], []) == Some(([(lo, hi)], []))
  {
    assert GetEsc([lo, '-', hi, ']']) == Some((lo, ['-', hi, ']']));
    assert ['-', hi, ']'][1..] == [hi, ']'];
    assert GetEsc([hi, ']']) == Some((hi, [']']));
    assert [] + [(lo, hi)] == [(lo, hi)];
    assert ParseRanges([']'], [(lo, hi)]) == Some(([(lo, hi)], []));
  }

  /** A pattern that is one chunk without a leading star matches a name exactly when the
      chunk matches all of it. */
  lemma {:induction false} SingleChunkMatch(p: string, name: string)
    requires p != [] && ScanChunk(p) == Chunk(false, p, [])
    requires !MatchChunk(p, name).BadChunk?
    ensures Match(p, name) == Ok(MatchChunk(p, name) == Matched([]))
  {
    var m := MatchChunk(p, name);
    if m.Matched? && m.rest == [] {
      assert Match(p, name) == Match([], []);
    } else {
      assert Match(p, name) == CheckRest([]);
    }
  }

  /** A bracket left open after a literal prefix is a syntax error, whatever the name. */
  lemma {:induction false} UnclosedBracket(lit: string, name: string)
    requires IsLiteral(lit)
    ensures Match(lit + "[", name) == Err(ErrBadPattern)
  {
    var p := lit + "[";
    UnclosedBracketScan(lit);
    LiteralSkipsWhenFailed(lit, "[", "");
    assert MatchChunkFrom("[", "", true) == BadChunk;
    assert MatchChunk(p, "") == BadChunk;
    assert !WellFormed(p);
  }

  /** Literal text followed by `[` is one chunk, without a leading star. */
  lemma {:induction false} UnclosedBracketScan(lit: string)
    requires IsLiteral(lit)
    ensures ScanChunk(lit + "[") == Chunk(false, lit + "[", [])
  {
    var p := lit + "[";
    assert p[..|lit|] == lit;
    assert lit == [] ==> SkipStars(p) == p;
    assert lit != [] ==> !IsMeta(p[0]) && SkipStars(p) == p;
    assert ChunkEnd(p, |lit|, false) == |p|;
    assert ChunkEnd(p, 0, false) == |p| by {
      ChunkEndPassesLiteral(p, 0, |lit|);
    }
  }

  lemma {:induction false} ChunkEndPassesLiteral(p: string, i: nat, j: nat)
    requires i <= j <= |p|
    requires forall k :: i <= k < j ==> !IsMeta(p[k])
    ensures ChunkEnd(p, i, false) == ChunkEnd(p, j, false)
    decreases j - i
  {
    if i < j {
      ChunkEndPassesLiteral(p, i + 1, j);
    }
  }
}
