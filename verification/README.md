# spek: presenter, picker and versioner in Dafny

A model of the core of the Ruby gem `spek`, which wraps RubyGems
specification records:

- the **presenter** (`Spek::Presenter`) reads a specification record and
  answers defaulted and derived views of it: metadata look-ups with fixed
  fallbacks, `Array(...)` coercion of authors, emails and the certificate
  chain, the version cast to a major.minor.patch value, and the
  "compress-join" display strings (`banner`, `labeled_summary`,
  `labeled_version`, `named_version`, `package_name`, `package_path`), which
  drop nil and empty parts and join the rest with a separator;
- the **picker** (`Spek::Picker`) asks a finder for the installed
  specifications of a name and answers a `Failure` for none, the one
  specification for one, and for several writes a numbered listing, reads
  one line and indexes the candidates with `line.chomp.to_i - 1` under
  Ruby's `Array#[]` rules (negative indices count from the back, an index
  past either end gives nil, and an index outside the 64-bit `long` range
  raises `RangeError`, which escapes `call`);
- the **versioner** (`Spek::Versioner`) rewrites a gemspec's content with
  `content.sub(/version.+\n/, %(version = "V"\n))`, modelled as a pure
  string function with an explicit leftmost-match search.

Files and modules:

| file | module | models |
|---|---|---|
| wrappers.dfy | `Wrappers` | `Option` (Ruby nil) and `Result` (Dry::Monads `Success`/`Failure`) |
| decimal.dfy | `Decimal` | decimal rendering of naturals and its read-back |
| versions.dfy | `Versions` | the version triple, its text and the cast from text |
| compress_join.dfy | `Joins` | `compress!` followed by `join` |
| ruby_core.dfy | `RubyCore` | `Array(x)`, `Array#[]`, `String#chomp`, `String#to_i` |
| presenter.dfy | `Presenters` | `lib/spek/presenter.rb` |
| picker.dfy | `Picker` | `lib/spek/picker.rb` |
| versioner.dfy | `Versioner` | the content rewrite of `lib/spek/versioner.rb` |

Where the code and its tests disagree the model follows the code:

- `label` defaults to the empty string (`lib/spek/presenter.rb:63`); the
  tests expect `"Undefined"` (`spec/lib/spek/presenter_spec.rb:68`, `:188`,
  `:209`). With the code's default an unlabelled record's `labeled_version`
  is the bare version and its `banner` is `"0.0.0: A test summary."`
  (`Presenters.UnlabelledBanner`).
- `labeled_summary` defaults its delimiter to `": "`
  (`lib/spek/presenter.rb:65`); a test expects `" - "`
  (`spec/lib/spek/presenter_spec.rb:199`). `Presenters.LabeledTestSummary`
  states the `": "` form.
- When no line matches the version pattern the versioner leaves the content
  unchanged and reports nothing (`lib/spek/versioner.rb:17`); the model does
  the same (`Versioner.Rewrite`) rather than raising a "no match" error.

## Model

| member | source | states |
|---|---|---|
| `Presenters.WithDefault` | lib/spek/presenter.rb:35-37 | a specification record is wrapped unchanged; nothing or a foreign value gets a fresh record with no name, no version and empty metadata |
| `Presenters.WithDefaultNamedVersion` | spec/lib/spek/presenter_spec.rb:19-31 | with nothing or a foreign value, `named_version` is exactly `"0.0.0"`; with a record, it is that record's named version |
| `Presenters.Read` | lib/spek/presenter.rb:43-85 | each metadata-backed reader answers the stored value when its key is present and its fixed default otherwise |
| `Presenters.ReadAfterStore` | lib/spek/presenter.rb:43-85 | the readers' keys are distinct: storing one key changes that reader to the stored value and leaves every other reader unchanged |
| `Presenters.EmptyMetadataDefaults` | lib/spek/presenter.rb:43-85 | with empty metadata: push host `https://rubygems.org`, push key `rubygems_api_key`, the URLs and the label `""`, MFA off |
| `Presenters.RubygemsMfa` | lib/spek/presenter.rb:75 | true exactly when the `rubygems_mfa_required` key is present with the value `"true"`; absent means false |
| `Presenters.Authors` | lib/spek/presenter.rb:47 | nil gives no authors and a name a one-element list; since the record's singular `author` reader answers one name or nil, there is never more than one author |
| `Presenters.Emails` | lib/spek/presenter.rb:55 | nil gives no emails, one address a one-element list, a list the same list in order |
| `RubyCore.ArrayOf` | lib/spek/presenter.rb:47-55 | `Array(x)`: nil to `[]`, a single value to a one-element list, a list to itself |
| `Presenters.CertificateChain` | lib/spek/presenter.rb:51 | one path per entry of `Array(cert_chain)`, same order, same text |
| `Presenters.HomepageUrl` | lib/spek/presenter.rb:59 | nil homepage gives `""`, otherwise the homepage |
| `Presenters.SigningKey` | lib/spek/presenter.rb:77 | nil signing key gives the empty path, otherwise that path |
| `Presenters.VersionOf` | lib/spek/presenter.rb:83 | casting the record version's text gives that version back; a missing version (text `""`) gives 0.0.0 |
| `Versions.CastToS` | lib/spek/presenter.rb:83 | the cast of a version's text is that version; `Versions.ToS` (`Version#to_s`) writes the `"M.m.p"` text of the three numbers, and `Versions.Cast` reads `""` as 0.0.0, three non-empty dot-separated digit runs as that triple, and anything else as no version |
| `Versions.CastPieces` | lib/spek/presenter.rb:83 | three non-empty digit runs joined by dots cast to the triple of their values |
| `Decimal.Render` | lib/spek/picker.rb:28-30 | the decimal text of a number is non-empty digits, without a leading zero unless it is 0, and reads back as the number |
| `Joins.Compress` | lib/spek/presenter.rb:49-71 | `compress!` keeps no empty string and never adds parts |
| `Joins.CompressAppend` | lib/spek/presenter.rb:49-71 | compressing a concatenation concatenates the compressions: each part is kept or dropped on its own, order is kept |
| `Joins.CompressKeeps` | lib/spek/presenter.rb:49-71 | a string survives compression exactly when it is non-empty and one of the parts |
| `Joins.JoinAppend` | lib/spek/presenter.rb:49-71 | joining two non-empty runs puts exactly one separator at the seam; `Joins.Join` (`Array#join`) gives `""` for no items, the item itself for one, and puts `sep` only between neighbours |
| `Joins.CompressJoinEmpty` | lib/spek/presenter.rb:49-71 | the compress-join is empty exactly when every part is nil or empty |
| `Joins.CompressJoinPair` | lib/spek/presenter.rb:49-71 | for two parts: both blank gives `""`, one blank gives the other alone, neither gives `a + sep + b`; no leading, trailing or doubled separator |
| `Presenters.Banner` | lib/spek/presenter.rb:49 | `labeled_version`, then the delimiter (`": "` by default) and the summary unless the summary is nil or empty |
| `Presenters.LabeledSummary` | lib/spek/presenter.rb:65 | label and summary joined by the delimiter (`": "` by default), a blank side dropped together with the delimiter |
| `Presenters.LabeledVersion` | lib/spek/presenter.rb:67 | `"label V"`, or just `"V"` when the label is empty |
| `Presenters.NamedVersion` | lib/spek/presenter.rb:69 | `"name V"`, or just `"V"` when the name is nil or empty |
| `Presenters.PackageName` | lib/spek/presenter.rb:71 | `"name-V.gem"`, or `"V.gem"` when the name is nil or empty |
| `Presenters.PackagePath` | lib/spek/presenter.rb:73 | `"tmp/"` followed by the package name, unless the name is absolute, which then stands alone |
| `Presenters.VersionBearingNames` | lib/spek/presenter.rb:67-71 | the version text is never empty, so `named_version`, `labeled_version` and `package_name` are never empty and end with it (`package_name` with `".gem"` after it) |
| `Presenters.TestRecordBasics` | lib/spek/presenter.rb:63 | the tests' record (name `test`, version 0.0.0, no metadata) has the version text `"0.0.0"` and, under the code's default, the empty label |
| `Presenters.TestNamedVersion` | spec/lib/spek/presenter_spec.rb:265-268 | a presenter named `test` at version 0.0.0 answers `"test 0.0.0"` |
| `Presenters.TestPackage` | spec/lib/spek/presenter_spec.rb:288-314 | a presenter named `test` at version 0.0.0 answers the package `"test-0.0.0.gem"` and the path `"tmp/test-0.0.0.gem"` |
| `Presenters.UnlabelledBanner` | lib/spek/presenter.rb:49-67 | with no label, version 0.0.0 and the tests' summary the code answers `"0.0.0"` for `labeled_version` and `"0.0.0: A test summary."` for `banner`, with no `"Undefined"` prefix |
| `Presenters.LabeledTestSummary` | lib/spek/presenter.rb:65 | with the label `"Test"` and the tests' summary, `labeled_summary` is `"Test: A test summary."`, joined by the default `": "` |
| `Picker.Call` | lib/spek/picker.rb:17-25 | the finder is asked once, for the name; none returns `Failure("Unknown or uninstalled gem: NAME.")` with no I/O; one returns `Success` of it with no I/O; several write the listing and the prompt and read one line, then return `Success` of the candidates indexed by `to_i` of the line less one under `Array#[]` when that index fits a 64-bit `long`, and otherwise let `RangeError` escape; a chosen value is always one of the candidates |
| `Picker.Listing` | lib/spek/picker.rb:28-30 | line i is `"(i+1). "` followed by candidate i's named version, one line per candidate in order |
| `Picker.Choose` | lib/spek/picker.rb:27-35 | writes the listing then `"\nPlease enter gem selection:"`; its look-up is `Array#[]` of the candidates at `to_i` of the line less one (so negative inputs count from the back); it raises `RangeError` exactly when that index does not fit a `long`, otherwise it finds a candidate exactly when `to_i` of the line is in (-n, n], and what it finds is one of the candidates |
| `Picker.PickByRank` | spec/lib/spek/picker_spec.rb:35-48 | with n ≥ 2 candidates, typing k (1 ≤ k ≤ n), with or without a line break, gives `Success` of the k-th candidate |
| `Picker.CallPicksRank` | lib/spek/picker.rb:17-34 | with 2 ≤ n candidates, a line that `to_i` reads as a rank k in 1..n makes `call` return `Success` of the k-th candidate |
| `Picker.ListedNumberPicks` | lib/spek/picker.rb:28-34 | typing a whole listing line back picks that line's candidate, because `to_i` reads the rank the line starts with |
| `Picker.RankLineIndex` | lib/spek/picker.rb:34 | a line starting with rank k followed by non-numeric text gives index k - 1 |
| `Picker.ZeroPicksLast` | lib/spek/picker.rb:34 | input `"0"` gives index -1, so the last candidate |
| `Picker.NegativePicksFromBack` | lib/spek/picker.rb:34 | input `"-k"` for 1 ≤ k < n gives index -k - 1, which `Array#[]` counts from the back: candidate n - k - 1, so `"-1"` picks the second-to-last |
| `Picker.SelectionIndex` | lib/spek/picker.rb:34 | the index looked up is `to_i` of the line less one, whether or not `chomp` removed a line break |
| `Picker.OutOfRangeIsNil` | lib/spek/picker.rb:34 | an input whose number is above n or at most -n returns `Success` of nil after writing the listing and prompt when its index fits a `long`, and raises `RangeError` after the same output when it does not |
| `Picker.BeyondLongRaises` | lib/spek/picker.rb:34 | typing a number of 2^63 + 1 or more, with or without a minus sign, gives an index no `long` can hold, so `call` raises `RangeError` |
| `RubyCore.At` | lib/spek/picker.rb:34 | `Array#[]`: an index outside the 64-bit `long` range raises `RangeError` (a `Failure`); otherwise [0, n) from the front, [-n, 0) from the back (index mod n), anything else nil; a hit is an element |
| `RubyCore.Chomp` | lib/spek/picker.rb:34 | drops at most two trailing line-break characters and keeps the rest as a prefix; a trailing `"\n"` is always dropped |
| `RubyCore.ChompKeepsToI` | lib/spek/picker.rb:34 | `chomp` never changes what `to_i` reads from a line |
| `RubyCore.ToIRender` | lib/spek/picker.rb:34 | `to_i` reads back the decimal text of a number followed by non-numeric text; `RubyCore.ToI` skips leading whitespace, takes an optional sign and `0d` prefix, and reads digits with single underscores between them, anything else reading as 0 |
| `RubyCore.ToINegated` | lib/spek/picker.rb:34 | `to_i` reads a minus sign followed by the decimal text of a number as the negated number |
| `Versioner.FindMatch` | lib/spek/versioner.rb:17 | the search answers the lowest matching position at or after its start, or none when no later position matches |
| `Versioner.MatchEnd` | lib/spek/versioner.rb:17 | a match runs from the keyword to the first line break after it, has no interior line break and is at least nine characters long |
| `Versioner.MatchesAtExactly` | lib/spek/versioner.rb:17 | `/version.+\n/` matches at i exactly when `version` sits at i and a line break follows later on that line with at least one character between |
| `Versioner.LastLineNeverMatches` | lib/spek/versioner.rb:17 | text with no line break after a position never matches there |
| `Versioner.Rewrite` | lib/spek/versioner.rb:17 | with no match the content is unchanged; otherwise the leftmost match is replaced by `version = "V"` and a line break |
| `Versioner.RewriteSplice` | lib/spek/versioner.rb:17 | text before the match and after its line break is kept, the replacement sits at the match position, and the length changes by the replacement's length less the match's |
| `Versioner.LeftmostFound` | lib/spek/versioner.rb:17 | the leftmost match position is where the search stops |
| `Versioner.KeywordNoSelfOverlap` | lib/spek/versioner.rb:17 | two occurrences of `version` never overlap |
| `Versioner.ReplacementMatches` | lib/spek/versioner.rb:17 | a replacement line (V without line break) is itself a match spanning exactly the replacement |
| `Versioner.RewriteIdempotent` | lib/spek/versioner.rb:17 | rewriting twice with the same V (no line break in V) equals rewriting once |
| `Versioner.ReceiverKept` | lib/spek/versioner.rb:17 | when the receiver contains no `v` (so no earlier text can match), `<receiver>version = "<old>"` becomes `<receiver>version = "V"` with the receiver (such as `spec.`) and all later text kept |

## Left out

- `lib/spek/loader.rb` is not part of this model: it hands a path to RubyGems' `Gem::Specification.load`, a foreign parser, and wraps the record.
- The versioner's file read and write (`Pathname#rewrite`) and its reload through the loader are left out; only the content transform is modelled, so the load-after-rewrite round trip in the versioner's tests is not stated.
- `Versioner.Rewrite`: takes the replacement literally, while Ruby's `sub` interprets backslash sequences in it; the two agree whenever V has no backslash.
- RubyGems' `Gem::Specification#author` reader (the first of `authors`) is not part of this model; the record holds its answer, one name or nil, directly.
- `Picker.PickByRank`, `Picker.CallPicksRank`, `Picker.ListedNumberPicks` and `Picker.NegativePicksFromBack` assume at most 2^63 - 1 candidates, since a Ruby array never holds more elements than a `long` can count; every other member places no bound on the number of candidates.
- `RubyCore.At`: the `RangeError` message follows recent Ruby's wording; only the raise itself matters to the model.
- The finder is a function parameter of `Picker.Call`; how RubyGems enumerates installed specifications is not modelled.
- `Kernel.puts`/`Kernel.gets` become an explicit list of written lines and one input line; `gets` answering nil at end of input (which makes `chomp` raise) is not modelled.
- `ARGV.clear` in `choose` is process-global state and is left out.
- The plain delegations (`bindir`, `executables`, `extra_rdoc_files`, `files`, `license`, `platform`, `require_paths`, `required_ruby_version`, `runtime_dependencies`) pass RubyGems' own values through and are not modelled; `name`, `summary` and `metadata` are record fields.
- `source_path` (`full_gem_path`) depends on the install directory and is left out.
- `Presenters.RubygemsMfa`: only the exact text `"true"` is treated as true; the full truth set of the `to_bool` refinement is not modelled.
- `Presenters.VersionOf`: a record version is a major.minor.patch triple; other RubyGems version shapes (fewer segments, pre-release tags) and the Versionaire cast of them are not modelled.
- `Presenters.PackagePath`: does not fold `.` and `..` segments the way `Pathname#+` does for a name containing `/`; for names without `/` the result is exact.
- `Presenters.Read`: metadata is a map of strings, so a key stored with a nil value (which `fetch` would answer as nil) cannot be expressed.
- `Presenters.WithDefault`: the `model:` keyword is reduced to a tag on the given value saying whether it is a specification record.
- `Presenters.CertificateChain`: certificate entries are held as text, so `path.to_s` is the identity.
