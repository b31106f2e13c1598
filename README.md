# confused: the Composer resolver and the known-safe filter, in Dafny

`confused` reads a dependency manifest, collects the package names it mentions and asks the
public registry which of them it does not know. Those names could be registered by anyone,
which is the opening for a dependency-confusion attack. This project models two parts of it:

- **The known-safe filter** (`removeSafe` in `main.go`). The `-s` argument is split at commas
  and each piece is trimmed of white space. Each piece is a `path/filepath.Match` pattern, and
  every reported name that one of them matches is dropped. A malformed pattern is skipped.
- **The resolver for Composer's `installed.json`** (`composer-installed.go`).
  - `ReadPackagesFromFile` accepts two shapes of the file. It collects each record's name,
    then its `require` keys, then its `require-dev` keys. The second shape contributes its
    `dev-package-names` first.
  - `PackagesNotInPublic` probes packagist.org for every collected name except `php`.
  - `isAvailableInPublic` answers `true` for platform packages (`ext-…`) without a request.
    Otherwise only a 200 answer means "available". On a 429 answer it retries, at most until
    the retry counter exceeds 3, but it throws the retry's verdict away. So a throttled
    package is always reported as unavailable, even when the retry succeeds. The model keeps
    this behaviour.

The modules:

- `Common`: `Option`, `Result`, `Outcome` and subsequences.
- `GoStrings`: `strings.Split`, `strings.TrimSpace` with `unicode.IsSpace`, and
  `strings.HasPrefix`. A `char` stands for a decoded rune.
- `Glob`: `path/filepath.Match` with the separator '/'. It follows the Go standard library's
  algorithm (Go 1.16 and later):
  - the pattern is cut into star-led chunks, and each chunk is matched without backtracking
    into earlier stars;
  - before answering `false`, the rest of the pattern is checked for syntax errors.
- `SafeFilter`: `removeSafe`. The method `RemoveSafe` keeps Go's loops and is proved equal
  to the function `Filtered` of the inputs.
- `ComposerInstalled`: the class `ComposerInstalledLookup` with the fields `Packages` and
  `Verbose`, modelled on these terms:
  - The JSON decoding is a parameter of `ReadPackagesFromFile`: it receives what each of
    the two `json.Unmarshal` calls decodes to.
  - Go's map iteration order is unspecified. The model picks keys with `:|`. Each visit's
    order is returned as a ghost `KeyOrder`, and the contract fixes only that it lists every
    key once (`Enumerates`). The names appended are `Listing` of the records and those orders.
  - The registry is a parameter `server`. It gives the answer to the `n`-th request of the
    scan for a given URL, so throttling that changes over time can be expressed.

`path/filepath` and `strings` are not part of this model as source files. `Glob` and
`GoStrings` model the behaviour of the Go standard library functions that `main.go:133-140`
calls.

A record without a `name` decodes to the empty string, and the code appends that string as
it is. The model does the same: `RecordListing` puts `r.name` in the list whatever it is.

## Model

| member | source | states |
|---|---|---|
| SafeFilter.RemoveSafe | main.go:129-154 | the result is exactly `Filtered(packages, SafeNamespaces(safespaces))`: the packages, in order, that no trimmed comma-separated pattern matches |
| SafeFilter.TrimPieces | main.go:134-136 | the pattern list is the pieces with each one trimmed, index by index |
| SafeFilter.IsIgnored | main.go:139-148 | the inner loop sets `ignored` exactly when some pattern matches the name without error; erroring patterns are passed over |
| SafeFilter.SafeNamespaces | main.go:133-136 | one pattern more than there are commas in the argument, and no pattern starts or ends with white space |
| SafeFilter.TrimAll | main.go:134-136 | same number of patterns as pieces, and pattern `k` is piece `k` trimmed |
| SafeFilter.Filtered | main.go:137-153 | the result is never longer than the package list |
| SafeFilter.FilteredIsSubsequence | main.go:137-153 | the surviving names keep their original order (the result is a subsequence of the input) |
| SafeFilter.FilteredMembers | main.go:137-153 | a name is in the result if and only if it is one of the packages and no pattern matches it |
| SafeFilter.FilteredIdempotent | main.go:129-154 | filtering the result again with the same patterns changes nothing |
| SafeFilter.IgnoredStep | main.go:139-148 | one more pattern ignores a name exactly when the earlier patterns did or the new one matches |
| SafeFilter.IgnoredWithout | main.go:139-148 | dropping one pattern changes which names are ignored only through the names that pattern matches |
| SafeFilter.IgnoredByOther | main.go:139-148 | a name matched by another pattern stays ignored when one pattern is dropped |
| SafeFilter.IgnoredByRest | main.go:139-148 | a name ignored by the patterns left after dropping one is ignored by the whole list |
| SafeFilter.MalformedPatternIsSkipped | main.go:140-144 | a malformed pattern neither removes anything nor stops the other patterns: the result equals the result without it |
| SafeFilter.EmptySafespacesKeepsNames | main.go:133-136 | with an empty `-s` the only pattern is the empty one, so exactly the non-empty names are kept |
| SafeFilter.SinglePattern | main.go:133-136 | a comma-free argument with no white space around it becomes the one pattern, unchanged |
| SafeFilter.ScopePatternAlone | main.go:133-136 | a scope followed by a star, for example `@internal/` and a star, is taken as the one pattern |
| SafeFilter.ScopePatternIgnores | main.go:140-147 | that pattern ignores exactly the names that start with the scope and have no '/' after it |
| SafeFilter.ScopePatternFilters | main.go:129-154 | with that one pattern a name survives if and only if it is a package and is not directly under the scope |
| GoStrings.TrimSpace | main.go:135 | the result is no longer than the input and neither starts nor ends with white space |
| GoStrings.TrimSpaceIsInfix | main.go:135 | the result is the slice of the input between a white-space prefix and a white-space suffix: only white space is removed, and only at the ends |
| GoStrings.SpaceEnd | main.go:135 | the first non-space at or after the start index, with only white space before it |
| GoStrings.SpaceStart | main.go:135 | the end of the last non-space before the end index, with only white space after it |
| GoStrings.Split | main.go:133 | there is at least one piece and no piece contains the separator |
| GoStrings.JoinSplit | main.go:133 | joining the pieces with the separator gives the argument back |
| GoStrings.SplitJoin | main.go:133 | splitting a join of separator-free pieces gives the pieces back |
| GoStrings.SplitCount | main.go:133 | there is one more piece than there are commas |
| Glob.SkipStars | main.go:140 | the result is the suffix of the pattern left once its leading stars are removed |
| Glob.ChunkEnd | main.go:140 | the chunk ends at the end of the pattern or at a star, never before it starts, and past its first character when that is not a star |
| Glob.ScanChunk | main.go:140 | the rest is shorter than a non-empty pattern, an empty chunk leaves nothing, and `star` holds exactly when the pattern starts with a star |
| Glob.GetEsc | main.go:140 | a decoded class character leaves a shorter, non-empty chunk |
| Glob.ParseRanges | main.go:140 | a parsed class leaves a shorter chunk |
| Glob.BadChunkIgnoresName | main.go:140-144 | whether a chunk is malformed does not depend on the name it is matched against |
| Glob.StarSearchNotBad | main.go:140-144 | for a chunk that is not malformed, the search after a star never reports it as malformed |
| Glob.Match | main.go:140-144 | `filepath.Match` reports `ErrBadPattern` if and only if some chunk of the pattern is malformed, whatever the name; what it matches is stated by LiteralMatch, StarMatch, PrefixStarMatch, QuestionMatch, ClassMatch, EscapeMatch and UnclosedBracket |
| Glob.MatchChunkFrom | main.go:140 | a successful chunk match has not failed on the way and leaves a suffix of the name |
| Glob.MatchClass | main.go:140 | a class case that succeeds has not failed on the way and leaves a suffix of the name; the class is parsed even after a failure |
| Glob.MatchChunk | main.go:140 | a successful chunk match consumes a prefix of the name and leaves the rest |
| Glob.StarSearch | main.go:140 | after a star the chunk is matched further along the name, and the last chunk only succeeds when it uses up the name |
| Glob.CheckRest | main.go:140-144 | checking the rest of the pattern never turns a failed match into a match: it gives `false` or `ErrBadPattern` |
| Glob.ChunkEndOverLiteral | main.go:140 | a chunk of star-free literal text runs to the next star |
| Glob.LiteralMatchChunk | main.go:140 | a literal chunk matches exactly the names it is a prefix of |
| Glob.LiteralSkipsWhenFailed | main.go:140 | after a failed match the literal text of a chunk is only skipped over |
| Glob.LiteralMatch | main.go:140 | a pattern without metacharacters matches only the identical name |
| Glob.StarMatch | main.go:140 | a lone star matches exactly the names without '/' |
| Glob.PrefixStarMatch | main.go:140 | literal text followed by a star matches exactly the names that start with it and have no '/' after it |
| Glob.QuestionMatch | main.go:140 | a lone `?` matches exactly the one-character names whose character is not '/' |
| Glob.EscapeMatch | main.go:140 | a backslash followed by a character matches exactly the name made of that character alone |
| Glob.ClassMatch | main.go:140 | a class `[lo-hi]` matches exactly the one-character names whose character lies in the range, for plain bounds |
| Glob.UnclosedBracket | main.go:140-144 | an unclosed `[` gives `ErrBadPattern`, whatever the name |
| Glob.ChunkEndPassesLiteral | main.go:140 | the chunk end does not change across literal text |
| ComposerInstalled.DetailUrl | composer-installed.go:117 | the URL is the packagist.org package-page prefix followed by the name itself |
| ComposerInstalled.ComposerInstalledLookup.constructor | composer-installed.go:27-29 | a new lookup starts with no names and keeps the verbosity flag |
| ComposerInstalled.ComposerInstalledLookup.AppendKeys | composer-installed.go:67-73 | a `range` over a map appends each key exactly once, in some order, after the earlier names |
| ComposerInstalled.ComposerInstalledLookup.AppendRecord | composer-installed.go:63-74 | the record's name, then its `require` keys, then its `require-dev` keys are appended |
| ComposerInstalled.ComposerInstalledLookup.AppendNames | composer-installed.go:57-59 | the development names are appended verbatim and in order |
| ComposerInstalled.ComposerInstalledLookup.AppendRecords | composer-installed.go:63-75 | the records' contributions are appended one after another, in the order of the list |
| ComposerInstalled.ComposerInstalledLookup.ReadPackagesFromFile | composer-installed.go:31-78 | the first shape is tried first. If both decodings fail, the second error is returned and the names are unchanged. Otherwise `nil` is returned, and the old names are followed by the development names (second shape only) and then by `Listing` of the records, for the map visit orders returned alongside |
| ComposerInstalled.ComposerInstalledLookup.IsAvailableInPublic | composer-installed.go:95-142 | available exactly when the retry counter is at most 3 and the name is a platform package or the first answer is 200; no request for platform packages or after the last retry, exactly one request when the first answer is not 429, and at most `4 - retry` requests otherwise |
| ComposerInstalled.ComposerInstalledLookup.NotInPublic | composer-installed.go:80-93 | never more names than collected, and at most four requests per name |
| ComposerInstalled.ComposerInstalledLookup.PackagesNotInPublic | composer-installed.go:80-93 | the method's loop returns exactly `NotInPublic(Packages, server, 0).notavail` |
| ComposerInstalled.EnumerationDistinct | composer-installed.go:67-73 | a visit of a map's keys appends as many names as the map has keys, and no name twice |
| ComposerInstalled.ListingSnoc | composer-installed.go:63-75 | one more record extends the appended names by that record's name, `require` keys and `require-dev` keys |
| ComposerInstalled.RecordLoopStep | composer-installed.go:63-75 | the record loop keeps its invariant: the names before it are untouched and the appended names grow by one record |
| ComposerInstalled.ListingContents | composer-installed.go:63-75 | the appended names are exactly the multiset of all record names, `require` keys and `require-dev` keys; only their order depends on map iteration |
| ComposerInstalled.ListingOrderIrrelevant | composer-installed.go:63-75 | two visits of the same records in different map orders append the same names with the same multiplicities |
| ComposerInstalled.ListingSegment | composer-installed.go:63-75 | record `i`'s names come right after those of the records before it, starting with its own name |
| ComposerInstalled.ListingPrefix | composer-installed.go:63-75 | the names appended for the first records are a prefix of the names appended for all of them |
| ComposerInstalled.RecordMultisetMembers | composer-installed.go:63-74 | a name is among one record's contributions exactly when it is the record's name, a `require` key or a `require-dev` key |
| ComposerInstalled.FlatMultisetIncludes | composer-installed.go:63-75 | every name, `require` key and `require-dev` key of every record is among the contributions |
| ComposerInstalled.FlatMultisetWitness | composer-installed.go:63-75 | every contributed name comes from some record, which the lemma names |
| ComposerInstalled.ReadMembers | composer-installed.go:31-78 | a name is present after a successful read if and only if it was there before, is a development name, or is some record's name or dependency key |
| ComposerInstalled.RetrySuccessIsDiscarded | composer-installed.go:133-141 | a 429 followed by a 200 still gives "not available", after two requests |
| ComposerInstalled.ThrottledUntilGivingUp | composer-installed.go:95-141 | a server that keeps answering 429 is asked `4 - retry` times, and the package is reported as unavailable |
| ComposerInstalled.NotInPublicIsSubsequence | composer-installed.go:80-93 | the reported names keep the order in which they were collected |
| ComposerInstalled.NotInPublicReports | composer-installed.go:80-105 | a reported name was collected, is not `php` and is not a platform package |
| ComposerInstalled.NotInPublicStateless | composer-installed.go:80-142 | against a registry whose answers do not change over time, a name is reported if and only if it was collected, is not `php`, is not a platform package and its page does not answer 200 |
| Common.SubsequencePrepend | composer-installed.go:80-93 | putting the same element in front of both sequences keeps the subsequence relation, and so does putting it in front of the longer one only |

## Left out

- `main`, `PrintResult`, `Help` and the other resolvers (npm, pip, Maven, RubyGems) are not part of this model. Neither are the command-line flags or the reading of the file from disk.
- The JSON decoding (`json.Unmarshal`) is left out, because it is a library call. `ReadPackagesFromFile` receives its two possible outcomes as parameters. Go still fills in part of the value when a field has the wrong type; the model treats a failed decoding as giving nothing.
- The HTTP client, the redirect policy, `resp.Body.Close` and the ten-second `time.Sleep` before a retry are left out. They are I/O and time. They are replaced by the `server` parameter, which gives the answer to each request.
- The diagnostic output (`fmt.Printf`, including everything `Verbose` controls) is left out, because it does not affect any result.
- Invalid UTF-8 in names or patterns is not modelled: a `char` is a decoded rune.
- Glob.StarSearch: Go skips bytes after a star, but the model skips whole characters. Go can therefore restart a chunk in the middle of a multi-byte character, where `?` or a class then consumes a single byte. For names with multi-byte characters the results can differ: Go matches "*??" against "€" and the model does not, so the model stays at the level of decoded characters.
- Glob.Match: only the '/' separator is modelled. The backslash is always an escape, as on Unix; Windows' `\` separator and its escaping rules are left out.
- ComposerInstalled.ComposerInstalledLookup.AppendKeys: the contract does not fix the order in which the keys are appended, only that each key appears exactly once, because Go leaves the order of map iteration unspecified.
