# nanotube core in Dafny

nanotube is a router for Graphite's plain-text line protocol: each line
`<path> <value> <time>\n` is one datapoint. The router parses the line and
optionally normalises the metric path. It then walks an ordered list of
routing rules. Each matching rule pushes the record to its cluster targets,
and a matching rule without `continue` ends the walk.

This project models that core and proves properties of it:

- `wrappers.dfy`: the `Option` and `Result` types that carry Go's
  `(value, error)` pairs, and the `byte` type with the protocol's constants.
- `path_normalize.dfy` (module `PathNormalize`): `normalizePathBytes`. It is
  written as the source's loops and proved equal to a reference definition,
  `Normalization`. The lemmas state the boundary cases, the shape of the
  result, when the result is unchanged, and idempotence.
- `rec_bytes.dfy` (module `Rec`): `getField`, `isWhitespace`, `recFields`,
  `ParseRecBytes`, `Serialize` and `Copy`. The reference meaning of field
  splitting is `Fields`: the maximal runs of bytes other than space and
  tab. `getField` and `recFields` are proved against it.
- `rules.dfy` (module `Rules`): `Build`, `compile`, `MatchBytes` and
  `RouteRecBytes`. The walk over the rules is proved to push exactly
  `Dispatch`: the targets of the matched rules, in rule order, up to and
  including the first matched rule without `continue`, with repeats
  removed.

External collaborators are parameters of the model:

- `validChar` is the parameter `valid: byte -> bool`.
- The clock `nowF` is the parameter `now`, which is the reading it returns.
- Go's `regexp` package is `RegexEngine`: which patterns compile, and which
  compiled patterns match which paths.
- The prefix trie is modelled by its abstract value, the list of inserted
  prefixes. Its `Check` is assumed to mean "some inserted prefix is a
  prefix of the path".
- A cluster target's `PushBytes` is `Transport.Push`. Its success is left
  open: either outcome is possible. Every push is logged in a ghost log.

`ParseRecBytes` and `recFields` are straight-line code in Go. Here they are
methods, because they call the loop-based `GetField` and
`NormalizePathBytes`. Some loops are split into helper methods so that each
proof stays small: `NeedsRewrite` and `RewritePath` of
`normalizePathBytes`, `CompileRule` of `compile`, and `PushTargets` of
`RouteRecBytes`.

## Model

| member | source | states |
|---|---|---|
| PathNormalize.NormalizePathBytes | pkg/rec/rec_bytes.go:110-167 | The result is exactly `Normalization(s)`. An empty path comes back empty and unchanged. A non-empty all-dots path is the only error. A clean path comes back as is, with `changed` false. Any other path has its leading and trailing dots stripped, each run of dots collapsed to one dot, and each invalid byte replaced by `_`. |
| PathNormalize.NeedsRewrite | pkg/rec/rec_bytes.go:127-140 | The scan reports a rewrite exactly when the dot-stripped path has two dots in a row or a byte `validChar` rejects. |
| PathNormalize.RewritePath | pkg/rec/rec_bytes.go:142-157 | The rebuilt bytes are the stripped path with dot runs collapsed and invalid bytes replaced by `_`. |
| PathNormalize.NormalizationBoundaries | pkg/rec/rec_bytes.go:111-120 | The empty path gives `([], changed = false)` and no error. Normalisation fails exactly for a non-empty path made only of dots. |
| PathNormalize.NormalizedShape | pkg/rec/rec_bytes.go:115-157 | A successful result never starts or ends with a dot and never has two dots in a row. It is no longer than the input and is empty only for the empty input. Each of its bytes is `_` or an input byte that `validChar` accepts. The dot facts need no assumption about `validChar('.')`. |
| PathNormalize.NormalizedIsClean | pkg/rec/rec_bytes.go:127-157 | If `validChar('_')` holds, a successful result passes the scan that decides whether a rewrite is needed. |
| PathNormalize.UnchangedIffSame | pkg/rec/rec_bytes.go:158-166 | When `changed` is false the returned bytes equal the input; if `validChar('_')` holds, returned bytes equal to the input also mean `changed` is false. |
| PathNormalize.NormalizationIdempotent | pkg/rec/rec_bytes.go:110-167 | Normalising a normalised path succeeds and returns the same bytes. If `validChar('_')` holds, it also reports no change. |
| Rec.GetField | pkg/rec/rec_bytes.go:71-88 | The call fails exactly when only spaces and tabs remain from `st`. The error is "start beyond end" iff `st == len(s)`. On success, `st <= start < end <= len(s)`, `[st, start)` is all whitespace, `[start, end)` has none, and `end` is the end of `s` or a space or tab. |
| Rec.RecFields | pkg/rec/rec_bytes.go:49-69 | The call succeeds exactly when the line has at least three fields. On failure it names the first missing field. On success the three spans are consecutive fields in input order, and their bytes are the first three of `Fields(s)`. Later fields are not looked at. |
| Rec.ParseRecBytes | pkg/rec/rec_bytes.go:24-47 | Parsing fails with a malformed-record error exactly when the line has fewer than three fields. With normalisation on, it also fails when the path normalisation fails. On success, `RawVal` and `RawTime` are fields two and three, and any fourth or later field is ignored. `Path` is field one, or its normalised form. `Val` and `Time` are zero, and `Received` is the clock reading. |
| Rec.Serialize | pkg/rec/rec_bytes.go:95-106 | The output is `Path ' ' RawVal ' ' RawTime '\n'`, of length `len(Path) + len(RawVal) + len(RawTime) + 3`. |
| Rec.SeparatorBytes | pkg/rec/rec_bytes.go:90-92 | `isWhitespace` accepts a space (32) or a tab (9) and nothing else. A byte between two fields keeps them apart exactly when it is one of those two. Any other byte, a line feed included, joins them into one field. |
| Rec.FieldsAreWords | pkg/rec/rec_bytes.go:90-92 | Every field is non-empty and contains no space or tab. |
| Rec.FieldsOfLine | pkg/rec/rec_bytes.go:95-106 | Splitting a serialised record whose byte fields are words gives back path, value, and the time followed by the appended line feed. |
| Rec.ParsedLineReparses | pkg/rec/rec_bytes.go:24-47 | Serialising the three fields parsed from a line and splitting the result again gives back the same three fields, with the time now ending in a line feed. |
| Rec.TrailingNewlineStaysInTime | pkg/rec/rec_bytes.go:90-92 | A line feed is not a separator. Appending `'\n'` to a three-field line that ends in its time field leaves path and value alone and makes `'\n'` the last byte of the time field. |
| Rec.Copy | pkg/rec/rec_bytes.go:170-181 | As written: `Val`, `Time` and `Received` are preserved. `Path`, `RawVal` and `RawTime` come out empty, because `copy` into a nil slice moves nothing. |
| Rec.CopyLosesPath | pkg/rec/rec_bytes.go:176 | For every record with a non-empty path, `Copy` returns a different record and a different path. |
| Rec.DeepCopy | pkg/rec/rec_bytes.go:169-181 | The corrected copy, with each buffer allocated at the source's length before copying, equals the original record. |
| Rules.Build | pkg/rules/rules.go:40-71 | Building succeeds exactly when every named cluster exists and every regex compiles. An unknown cluster is reported before any regex error, and the reported name is the first unknown one in rule order, then name order. A regex error names the first pattern that fails to compile. On success the rules keep declaration order and their count. Each rule keeps its regexes, prefixes and `continue` flag, has its clusters' targets in name order, one compiled regex per pattern in order, and a trie of exactly its prefixes. |
| Rules.Compile | pkg/rules/rules.go:74-99 | Compiling updates the rules in place. It succeeds exactly when every pattern compiles, and then every rule has its compiled regexes and its trie. Otherwise it stops at the first failing pattern. The rules before it are fully compiled, that rule holds the patterns compiled so far, and the later rules are untouched. |
| Rules.CompileRule | pkg/rules/rules.go:76-95 | For one rule: the regexes are compiled in order, stopping at the first that fails, whose index is returned. Then the trie is built from the rule's prefixes. No other rule changes. |
| Rules.TrieChecksPrefixes | pkg/rules/rules.go:92-95 | A trie built from a rule's prefixes matches a path exactly when one of those prefixes is a prefix of the path. |
| Rules.MatchBytes | pkg/rules/rules.go:164-184 | A rule matches exactly when its trie matches or some compiled regex matches. The trie is tried first: on a trie hit no regex runs. Otherwise the regexes run in order and stop at the first hit, so every earlier regex missed. If none hits, all of them ran. |
| Rules.RouteRecBytes | pkg/rules/rules.go:136-161 | The call only appends to the push log. The targets of the new entries are `Dispatch`, in order, and every entry carries this record. This holds whatever the push outcomes are: a failed push stops nothing, and its target is not retried. |
| Rules.PushTargets | pkg/rules/rules.go:142-154 | For one matched rule, each target not yet pushed to is pushed once, in order. Every target, including one whose push failed, is then recorded as pushed. |
| Rules.DedupElements | pkg/rules/rules.go:137-153 | De-duplication keeps exactly the targets of the list. |
| Rules.DedupDistinct | pkg/rules/rules.go:143-145 | The de-duplicated list has no repeats. |
| Rules.DedupPrefix | pkg/rules/rules.go:139-155 | De-duplicating a longer list only adds at the end, so pushes for earlier rules come first and in the same order. |
| Rules.PushedAtMostOnce | pkg/rules/rules.go:137-153 | Within one routing call every target is pushed at most once, even when several matched rules list it. |
| Rules.DispatchMembers | pkg/rules/rules.go:139-159 | A record is pushed to a target exactly when a rule it reaches matches it and lists that target. A rule is reached when no earlier matched rule lacks `continue`. |
| Rules.NoMatchNoPush | pkg/rules/rules.go:139-156 | A record that matches no rule is pushed nowhere. |
| Rules.StopAfterFinalMatch | pkg/rules/rules.go:157-159 | Once a reached rule matches without `continue`, the rules after it change neither the selected targets nor the pushes. |
| Rules.NonMatchingRuleInert | pkg/rules/rules.go:139-156 | Removing a rule that does not match changes nothing that is selected. |

## Left out

- cmd/nanotube/process.go is not part of this model. It is a goroutine
  pool (`Process`, `worker`) and glue (`proc`, `procStr`) around parsing
  and routing, and its point is concurrency.
- Go's `regexp` package and the prefix trie implementation are not modelled.
  They are the uninterpreted `RegexEngine` and the list of inserted prefixes,
  with `Check` assumed to mean "some inserted prefix is a prefix of the
  path".
- `validChar` is the uninterpreted parameter `valid`.
- Instrumentation and logging are left out: `measureRegex` and
  `regexDuration` timers, Prometheus counters, zap logging, and the
  `shouldLog` and `lg` parameters. `MatchBytes` reports the number of
  regexes it ran as a ghost output instead of observing their latency.
- Decoding `Val` and `Time` is left out. The parser never fills them, so
  they stay zero. `Received` is an opaque clock reading.
- The text of error messages is left out: the error-wrapping prefixes, and
  the regex error message that formats `cre` instead of `re`. Errors are
  kept as datatypes that say which field is missing, which cluster is
  unknown, or which pattern does not compile.
- `TestBuild` is the same code as `Build` over test targets, and it is
  modelled once.
- Rules.Build: returns only the error on failure. The partly built table
  that Go returns next to the error is not modelled.
- Rules.Build: fills an array of `len(crs.Rule)` rules instead of growing a
  slice by `append`.
- Aliasing of byte slices is not modelled. `ParseRecBytes` returns
  sub-slices of its input, and `normalizePathBytes` hands back the input
  buffer itself on its fast path. The model has values, so "the same
  buffer" is read as "the same bytes".
- PathNormalize.NormalizePathBytes: on the all-dots error Go also returns
  an empty slice and `changed = true`. Callers ignore that value, so the
  model returns the error alone.
- PathNormalize.UnchangedIffSame: the direction "same bytes, so not
  changed" assumes `validChar('_')`. Without it, a path containing `_` is
  rewritten to the same bytes and reported as changed.
- Rules.RouteRecBytes: cluster targets are compared by value, standing for
  the identity of the Go interface value used as the `pushedTo` key.

## Findings

| source | as written | input that shows it | evidently intended | confidence | as-written member | corrected member |
|---|---|---|---|---|---|---|
| pkg/rec/rec_bytes.go:170-181 | `Copy` builds a record whose `Path`, `RawVal` and `RawTime` are nil, then calls `copy` into them; `copy` moves at most `len(dst)` bytes, so nothing is copied | any record with a non-empty path, e.g. path `a.b`, value `1`, time `2` | a deep copy: each buffer allocated with the source's length, then copied | high, not executed | Rec.CopyLosesPath | Rec.DeepCopy |
