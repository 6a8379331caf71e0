# Cursor Rules Registry — a verified model of the rule pipeline

This project models the core of the Cursor Rules Registry editor extension in Dafny. The extension keeps reusable rule documents in a workspace-local registry: `.mdc` files, each made of YAML frontmatter and a Markdown body, grouped under `teams/<team>/` and `users/<user>/`. It discovers and parses those files into rule records, and it merges the tags kept in a side file, `rules-metadata.jsonc`. It filters and sorts rules for display. It "applies" a rule by copying a configured version into `.cursor/registry/applied` under a collision-free name, and removes it again. It also scrapes team membership out of Go source files.

The model follows the TypeScript sources file by file, one module per file:

- `RuleId` (`rule_id.dfy`): rule-source normalisation and `deriveRuleId`.
- `MdcParser` (`mdc_parser.dfy`): frontmatter splitting and its closing-delimiter loop, the `key:` pre-pass, null clean-up, the validator, rule building, the directory loop, filtering and the in-place sort, and the preview.
- `RuleConfiguration` (`rule_configuration.dfy`): the frontmatter rewriter `applyConfigurationToRule` and its reader `extractConfigurationFromRule`.
- `RuleApplication` (`rule_application.dfy`): the unique applied name, `applyRule`, the applied-name filter, `isRuleApplied` and `removeAppliedRule`.
- `MetadataService` (`metadata_service.dfy`): the tolerant loader, the merge-and-serialise save, and the two tag wrappers.
- `RuleDiscovery` (`rule_discovery.dfy`): `discoverAllRules`, which partitions the rules and overlays their tags, and the per-owner and by-ID queries.
- `FileUtils` (`file_utils.dfy`): `createUniqueFilename`, the recursive `.mdc` scan, the registry listing and `createRegistryStructure`.
- `GoTeamParser` (`go_team_parser.dfy`): the regex scanners, brace matching, member resolution and the two-pass `parseTeamMemberships`.

Supporting modules:

- `Wrappers`: `Option` and `Result`.
- `Strings`: JavaScript `trim` with the ECMAScript white-space set, ASCII `toLowerCase`, `split`, `join` and substring search.
- `Paths`: Node's `path.parse`, `basename`, `join` and `relative` on paths held as segment sequences.
- `Sequences`: generic sequence facts.
- `Json`: the `JSON.stringify` printer and `JSON.parse` parser, with their round trip.
- `Jsonc`: the loader's comment and trailing-comma clean-up.
- `FileSystem`: the disk, as a map from paths to files (text and modification time) and directories (listing order). The class `FileStore` holds it and changes it in place through `mkdir -p`, `writeFile` and `unlink`.

Each module keeps the form of the code it models:

- Loops that push, count or rewrite are Dafny methods with loop invariants. Each is proved equal to a specification function, and the properties are proved about that function.
- Operations that change the disk take the `FileStore` and state their whole new disk.
- The sort in `filterAndSortRules` works in place on an `array`.

Outside inputs become parameters:

- The workspace root (`getWorkspaceRoot`) is passed in, and `None` means no workspace.
- The registry directory name (`getRegistryDirName`) and the process's working directory are passed in.
- The clock (`Date.now()` and `new Date()`) is an integer `now`.
- The YAML decoder is a function that may fail.
- The metadata file's warning header `META_FILE_WARNING` is a string. `src/metadataService.ts` does not define it.

Some behaviour of the code is worth stating outright, because the model keeps it:

- Rule IDs are the working-directory-relative path with every non-alphanumeric character replaced by `_` (`src/mdcParser.ts:178-179`). `deriveRuleId` is modelled, but discovery does not call it.
- Titles come only from a leading `# ` heading or the file name. The metadata file cannot override a title or a description.
- The code has no discovery cache and no clean-up of orphaned metadata entries; the model has neither.
- Discovery reads only `teams/<name>/` and `users/<name>/`; the code has no ownerless rules at the registry root.
- The frontmatter pre-pass does not rewrite bare `globs:` values.
- Search is a boolean substring filter. There is no fuzzy scoring, and applied rules are not sorted first.
- Applied copies are named `<stem>_<k>.mdc`, with no owner tag in the name.
- The registry listing fails when `teams` or `users` is a file, because `readdirSync` throws there.

## Model

| member | source | states |
|---|---|---|
| Paths.Ext | src/ruleId.ts:23 | the extension `path.parse` reports is empty or a final dotted suffix of the name, shorter than the name |
| Paths.Stem | src/ruleId.ts:23 | `path.parse(p).name`: the stem followed by the extension is the base name |
| Paths.StemOfSuffixed | src/ruleId.ts:23 | a name ending in one dotted suffix has that suffix as extension and the rest as stem |
| Paths.BaseOfText | src/ruleId.ts:23 | the base name of a textual path holds no `/` |
| Paths.RelativeBelow | src/mdcParser.ts:178 | the path of a file below the working directory, relative to it, is the remaining segments joined by `/` |
| RuleId.LocalPart | src/ruleId.ts:13 | `split('@')[0]`: a prefix of the address with no `@`, the whole address when it has none |
| RuleId.LocalPartOf | src/ruleId.ts:13 | the local part of `local@domain` is `local` |
| RuleId.RuleSource | src/ruleId.ts:8-16 | a given team wins and gives its name lower-cased without white space; otherwise a given user gives the part before `@` without dots; otherwise the source is empty |
| RuleId.DeriveRuleId | src/ruleId.ts:22-26 | the ID is the file's stem, followed by `.` and the source when the source is not empty |
| RuleId.TeamWins | src/ruleId.ts:9-11 | with a team given, the user makes no difference |
| RuleId.TeamSourceIdempotent | src/ruleId.ts:10 | normalising a normalised team name changes nothing |
| RuleId.IdInjectiveInSource | src/ruleId.ts:22-26 | for one file, equal IDs with non-empty sources have equal sources |
| RuleId.TeamSourceOfWords | src/ruleId.ts:10 | a two-word team name becomes both words lower-cased and joined |
| RuleId.UserSourceOfEmail | src/ruleId.ts:13 | `first.second@domain` becomes `firstsecond` |
| RuleId.IdOfMdcPath | src/ruleId.ts:22-26 | the ID of `dirs/stem.mdc` is the stem, qualified by the source when there is one |
| RuleId.ExampleTeamSource | src/test/ruleId.test.ts:6-8 | `getRuleSource('Asset Foundations')` is `assetfoundations` |
| RuleId.ExampleUserSource | src/test/ruleId.test.ts:10-12 | `getRuleSource(undefined, 'john.doe@example.com')` is `johndoe` |
| RuleId.ExampleTeamId | src/test/ruleId.test.ts:14-18 | `deriveRuleId('some/dir/foo-bar.mdc', 'Asset Foundations')` is `foo-bar.assetfoundations` |
| RuleId.ExampleUserId | src/test/ruleId.test.ts:20-24 | `deriveRuleId('/abs/path/clock.mdc', undefined, 'alice.smith@company.com')` is `clock.alicesmith` |
| RuleId.ExampleOwnerlessId | src/test/ruleId.test.ts:26-29 | `deriveRuleId('only-file.mdc')` is `only-file` |
| MdcParser.Lines | src/mdcParser.ts:42 | splitting at `\n` always yields at least one line, so the first line always exists |
| MdcParser.ClosingDelimiter | src/mdcParser.ts:56-62 | -1 exactly when no line after the first trims to `---`; otherwise the first such line's index, which is at least 1 |
| MdcParser.FindClosingDelimiter | src/mdcParser.ts:56-62 | the search loop returns the closing-delimiter index characterised above |
| MdcParser.ClosingUnique | src/mdcParser.ts:56-62 | any index with the three closing-delimiter properties is that index: the characterisation is unique |
| MdcParser.PrepassLines | src/mdcParser.ts:81-89 | the empty-value pre-pass keeps the number of lines and rewrites every line on its own |
| MdcParser.BareKeyGetsNull | src/mdcParser.ts:84-85 | a bare key `k:` without a space becomes `k: null` |
| MdcParser.SpacedLineKept | src/mdcParser.ts:84-87 | a line holding a space is never rewritten |
| MdcParser.Field | src/mdcParser.ts:91 | a field of the decoded mapping is present exactly when some entry has that key, and then holds that entry's value |
| MdcParser.CleanNulls | src/mdcParser.ts:94-96 | a null description, globs or context becomes absent; every other value, and alwaysApply, is kept |
| MdcParser.Decoded | src/mdcParser.ts:78-102 | a YAML decoding failure gives empty metadata; otherwise the cleaned fields of the decoded document |
| MdcParser.ParseOutcome | src/mdcParser.ts:39-41 | a parse result exists exactly when the path is a readable file (an unreadable file gives null) |
| MdcParser.ParseMdcFile | src/mdcParser.ts:39-119 | the method returns the parse outcome of the file as it is on disk |
| MdcParser.NoFrontmatter | src/mdcParser.ts:45-53 | a first line not starting with `---` (after trimming) gives empty metadata and the whole text, trimmed, as content |
| MdcParser.UnclosedFrontmatter | src/mdcParser.ts:64-71 | with no closing delimiter the metadata is empty and the content is the whole text, trimmed |
| MdcParser.FrontmatterSplit | src/mdcParser.ts:73-113 | for an opening line, frontmatter lines without a delimiter, a closing delimiter and body lines, the metadata is the decoding of the frontmatter lines and the content is the body, trimmed |
| MdcParser.FramedClosing | src/mdcParser.ts:56-62 | in such a file the closing delimiter is the line right after the frontmatter |
| MdcParser.ValidateMdcFile | src/mdcParser.ts:124-165 | valid exactly when the content is not blank, truthy globs are a list, and alwaysApply, description and context, where present, are a boolean, a string and a string |
| MdcParser.ValidWithoutFrontmatter | src/mdcParser.ts:45-71 | a file without complete frontmatter is valid exactly when it holds a non-white-space character |
| MdcParser.Sanitise | src/mdcParser.ts:179 | the ID has as many characters as the relative path has UTF-16 code units, all of them word characters |
| MdcParser.SanitiseChar | src/mdcParser.ts:179 | an ASCII letter or digit is kept; any other character becomes one `_` per UTF-16 code unit, so two above U+FFFF |
| MdcParser.SanitiseAppend | src/mdcParser.ts:179 | the replacement works character by character: a concatenation is sanitised part by part |
| MdcParser.SanitiseBasicPlane | src/mdcParser.ts:179 | for a path in the basic plane the ID has the path's length, and each character is kept when it is an ASCII letter or digit and is `_` otherwise |
| MdcParser.SanitiseAstral | src/mdcParser.ts:179 | a character above U+FFFF, such as U+1F600, becomes `__` |
| MdcParser.SanitiseWord | src/mdcParser.ts:179 | a string of word characters is left as it is |
| MdcParser.SanitisedIsWord | src/mdcParser.ts:179 | every character of an ID is a word character, so the ID is a plain metadata key |
| MdcParser.SanitiseIdempotent | src/mdcParser.ts:179 | sanitising an ID again changes nothing |
| MdcParser.Title | src/mdcParser.ts:182-189 | the text after a leading `# ` on the trimmed first line, trimmed; otherwise the file name without `.mdc` |
| MdcParser.TitleFromHeading | src/mdcParser.ts:186-189 | content starting with `# heading` and a newline has that heading as its title |
| MdcParser.CreateRule | src/mdcParser.ts:170-215 | the rule's ID is the working-directory-relative path with every UTF-16 code unit outside `[a-zA-Z0-9]` replaced by `_`, so it is made of word characters and is as long as that path's JavaScript `length`; the rule has the derived title, the file's description, content and metadata, the given team and user, no author, and the file's modification time |
| MdcParser.RulesOfSound | src/mdcParser.ts:232-255 | every rule comes from a listed file that reads and validates, carries the given team and user, and is that file's rule; there are no more rules than files |
| MdcParser.RulesOfComplete | src/mdcParser.ts:232-255 | every listed file that reads and validates yields a rule |
| MdcParser.RulesOfSnoc | src/mdcParser.ts:232-249 | one more file appends at most its own rule, keeping the file order |
| MdcParser.ParseMdcFilesInDirectory | src/mdcParser.ts:220-264 | the loop returns the rules of the directory's `.mdc` files, in scan order |
| MdcParser.FilterRules | src/mdcParser.ts:274-298 | a missing or blank term keeps every rule; otherwise exactly the rules whose title, description, content or context holds the lower-cased trimmed term, each as often as in the input; nothing is added |
| MdcParser.KeepMatching | src/mdcParser.ts:280-297 | `rules.filter`: a matching rule is kept as often as it occurs in the input, and no other rule is kept |
| MdcParser.KeepMatchingAppend | src/mdcParser.ts:280-297 | filtering a concatenation filters each part, so the kept rules keep their input order |
| MdcParser.KeepMatchingOne | src/mdcParser.ts:280-297 | a single rule is kept exactly when it matches |
| MdcParser.LowerBlank | src/mdcParser.ts:277-278 | lower-casing does not change whether a term is blank |
| MdcParser.BeforeAsymmetric | src/mdcParser.ts:301-315 | the comparator never puts two rules each before the other |
| MdcParser.NotBeforeTransitive | src/mdcParser.ts:301-315 | "not before" is transitive for every sort key, so the order is a total preorder |
| MdcParser.SortRules | src/mdcParser.ts:301-315 | the in-place sort leaves the array sorted by the comparator and a permutation of its old contents |
| MdcParser.InsertLast | src/mdcParser.ts:301-315 | one insertion step extends the sorted prefix by one element, only permutes the array, and leaves every element after the step's index where it was |
| MdcParser.FilterAndSortRules | src/mdcParser.ts:269-318 | the result is a permutation of the filtered rules, sorted by the chosen key |
| MdcParser.FilterAndSortContents | src/mdcParser.ts:269-318 | the result holds only input rules; all of them for a blank term; otherwise every matching rule as often as in the input, and no other |
| MdcParser.ByTimeDescending | src/mdcParser.ts:303-306 | sorted by modification time means most recent first, a missing time counting as 0 |
| MdcParser.ByTitleAscending | src/mdcParser.ts:311-313 | sorted by title means titles ascend in code-point order |
| MdcParser.PreviewOfLines | src/mdcParser.ts:323-327 | previewing `n` lines of a text that has `n` or more is those `n` lines joined and trimmed |
| MdcParser.PreviewDefaultExample | src/test/mdcParser.test.ts:5-8 | four lines with the default limit give the first three |
| MdcParser.PreviewExample | src/test/mdcParser.test.ts:10-13 | `A`, `B`, `C` with a limit of 2 give `A` and `B` |
| RuleConfiguration.HeaderEnd | src/ruleApplication.ts:121 | -1 exactly when the text does not open with `---` and a line break or has no later `\n---\n`; otherwise the first such closing position |
| RuleConfiguration.ApplyConfigurationToRule | src/ruleApplication.ts:119-164 | the loop over the header lines, with its two flags, returns the configured text |
| RuleConfiguration.RewriteStep | src/ruleApplication.ts:138-150 | one loop step appends that line's rewrite and raises each flag exactly when the line starts with its key |
| RuleConfiguration.ConfiguredWithoutHeader | src/ruleApplication.ts:121-126 | a text without the `---` header is returned unchanged |
| RuleConfiguration.ConfiguredStrategy | src/ruleApplication.ts:139-141 | every `applyStrategy:` line of the new header is `applyStrategy: <strategy>`, and there is at least one |
| RuleConfiguration.ConfiguredGlobs | src/ruleApplication.ts:142-159 | a `globs:` line remains only when the configuration has globs, and then reads `globs: ["g1", "g2"]`; with globs there is always one |
| RuleConfiguration.ConfiguredOthers | src/ruleApplication.ts:147-149 | the header lines with neither key keep their order and nothing else joins them |
| RuleConfiguration.KeysDiffer | src/ruleApplication.ts:139-142 | no line starts with both keys, so the two branches never compete |
| RuleConfiguration.Frontmatter | src/ruleApplication.ts:217-222 | a header is found exactly when the text opens with `---` and a line break and has a later `\n---` |
| RuleConfiguration.StrategyCapture | src/ruleApplication.ts:225 | the capture is the one at the leftmost `applyStrategy:` that is followed by a run of word characters; none when no position matches |
| RuleConfiguration.StrategyAt | src/ruleApplication.ts:225 | a capture at a position follows the key there, is non-empty, and under `\w+` holds word characters only |
| RuleConfiguration.GlobsCapture | src/ruleApplication.ts:234 | the capture is the one at the leftmost `globs:` followed by a bracketed list; none when no position matches |
| RuleConfiguration.ReadStrategy | src/ruleApplication.ts:226-231 | a captured word is adopted exactly when it is the name of one of the three strategies |
| RuleConfiguration.Items | src/ruleApplication.ts:237 | every glob read back is non-empty and holds no double quote |
| RuleConfiguration.NeverAutoAttached | src/ruleApplication.ts:225-231 | the reader as written never reports `Auto Attached`, whatever the text |
| RuleConfiguration.ItemsQuoted | src/ruleApplication.ts:144 | quoted globs whose text has no quote, comma, bracket, colon or line break read back as themselves |
| RuleConfiguration.GlobItemsRead | src/ruleApplication.ts:237 | a written glob list, split at commas, trimmed and unquoted, gives back the globs |
| RuleConfiguration.ReadBackAsWritten | src/ruleApplication.ts:212-244 | reading back a configured rule gives the recorded configuration, except that `Auto Attached` comes back as `Always` |
| RuleConfiguration.ReadBackCorrected | src/ruleApplication.ts:212-244 | with the strategy pattern that reads a phrase, reading back a configured rule gives exactly the recorded configuration |
| RuleConfiguration.ReadBackStrategy | src/ruleApplication.ts:225-231 | the strategy read back is the one written, except that the reader as written turns `Auto Attached` into `Always` |
| RuleConfiguration.ReadBackGlobs | src/ruleApplication.ts:234-240 | the globs read back are the recorded globs, with either strategy reader |
| RuleApplication.FirstFreeUnique | src/ruleApplication.ts:66-72 | at most one attempt is the first free one, so the loop's answer is determined |
| RuleApplication.GenerateUniqueFilename | src/ruleApplication.ts:61-75 | the name is the first attempt, in the order `name.ext`, `name_1.ext`, `name_2.ext`, ..., that is free in the directory |
| RuleApplication.EnsureAppliedRulesDir | src/ruleApplication.ts:28-56 | without a workspace it fails with `No workspace root found`; otherwise it creates `.cursor/registry/applied` when missing, failing with the disk unchanged when a file is in the way |
| RuleApplication.ApplyRule | src/ruleApplication.ts:80-114 | after the directory step, the rule file is read, configured and written under the first free name; the result records the new name's stem, the original path, the new path, the time and the configuration; every failure comes back prefixed `Failed to apply rule: ` |
| RuleApplication.CopyInto | src/ruleApplication.ts:85-105 | reading, configuring and writing the copy under the first free name, or the matching error with the disk unchanged |
| RuleApplication.AppliedCopy | src/ruleApplication.ts:87-97 | the copy goes to a path that did not exist, reads back as the configured text, and changes no other file |
| RuleApplication.AppliedReadsBack | src/ruleApplication.ts:94-97 | the written copy reads back, with the corrected reader, as the recorded configuration |
| RuleApplication.Matching | src/ruleApplication.ts:268-274 | the names kept are exactly the listed names that pass the filter: `.mdc` files whose stem is the rule's stem or starts with it and `_` |
| RuleApplication.GeneratedMatches | src/ruleApplication.ts:66-72 | every name generated for `x.mdc` passes the filter for `x` |
| RuleApplication.GeneratedOnly | src/ruleApplication.ts:66-72 | a name that is `x.mdc` or `x_<counter>.mdc` is one of the names generated for `x.mdc` |
| RuleApplication.NumberedMatches | src/ruleApplication.ts:66-72 | a numbered copy `x_<k>.mdc` passes both the filter and the generated-name test for `x` |
| RuleApplication.ForeignNotGenerated | src/ruleApplication.ts:66-72 | a stem `x_w` whose `w` does not start with a digit is never a name generated for `x.mdc` |
| RuleApplication.ForeignCopyMatches | src/ruleApplication.ts:318-324 | the filter is coarse: the copy `x_w.mdc` of another rule `x_w`, with `w` not starting with a digit, passes for `x` although no name generated for `x.mdc` is `x_w.mdc` |
| RuleApplication.OtherRuleMatches | src/ruleApplication.ts:268-274 | for instance `foo_bar.mdc` passes the filter for the rule `foo` |
| RuleApplication.IsRuleApplied | src/ruleApplication.ts:296-332 | true exactly when there is a workspace, the applied directory exists, the rule is found and some listed name passes its filter |
| RuleApplication.ApplyThenDetected | src/ruleApplication.ts:87-97 | once a copy of `x.mdc` is written, the applied directory lists a name that passes the filter for `x` |
| RuleApplication.RemoveFiles | src/ruleApplication.ts:281-284 | the unlink loop ends in the removal outcome of those names |
| RuleApplication.RemovalSucceeds | src/ruleApplication.ts:281-284 | removing every name succeeds exactly when the names are distinct and each is a file of the directory |
| RuleApplication.RemovalEffect | src/ruleApplication.ts:281-284 | a successful removal deletes exactly those files and keeps every other path unchanged |
| RuleApplication.RemovalGone | src/ruleApplication.ts:281-284 | after a successful removal none of the removed names is on the disk |
| RuleApplication.RemovalFrame | src/ruleApplication.ts:281-284 | a successful removal keeps every path other than the removed files and their directory unchanged |
| RuleApplication.RemovalListing | src/ruleApplication.ts:281-284 | after a successful removal the directory lists its old names without the removed ones |
| RuleApplication.RemovedLeavesNoMatch | src/ruleApplication.ts:268-286 | after removing the matching files no listed name passes the filter, every other name is still listed, and every other path is unchanged |
| RuleApplication.RemoveAppliedRule | src/ruleApplication.ts:249-291 | false with the disk unchanged when there is no workspace, no applied directory, no such rule or no match; otherwise the removal of the matching names and its success |
| Jsonc.NoCommentKept | src/metadataService.ts:27 | a text with no `//` at the start of any line, after leading white space, is left unchanged |
| Jsonc.CommentRemoved | src/metadataService.ts:27 | a line made of white space and a `//` comment is emptied up to its line break |
| Jsonc.LineKept | src/metadataService.ts:27 | the rest of a line that did not start with a comment is copied unchanged |
| Jsonc.TrailingCommaDropped | src/metadataService.ts:29 | a comma followed by white space and `}` or `]` is dropped together with that white space |
| Jsonc.NoCommaKept | src/metadataService.ts:29 | comma-free text is left unchanged by the comma clean-up |
| Jsonc.CleanCommaDropped | src/metadataService.ts:29 | outside string literals, the string-aware clean-up drops a trailing comma and its white space as the expression does |
| Jsonc.CleanCommaKept | src/metadataService.ts:29 | a comma that is not followed by white space and a closing bracket is kept |
| Json.Lookup | src/metadataService.ts:55 | `map[id]`: a value is found only at a member with that key, and none exactly when no member has it |
| Json.Put | src/metadataService.ts:57 | after `map[id] = v` the key looks up `v`; a new key is appended at the end |
| Json.SurrogatePair | src/metadataService.ts:30 | a UTF-16 surrogate pair stands for a character above the basic plane, whose offset from 0x10000 splits back into the two ten-bit halves |
| Json.SurrogatePairDecoded | src/metadataService.ts:30 | `JSON.parse` reads the escaped pair `\uD83D\uDE00` as the single character U+1F600 |
| Json.StringRoundTrip | src/metadataService.ts:61 | parsing an escaped string literal gives back the string and the rest of the text |
| Json.ValueRoundTrip | src/metadataService.ts:61 | parsing a printed well-formed value gives back the value, whatever suitable text follows |
| Json.ParsePrint | src/metadataService.ts:61 | `JSON.parse` of `JSON.stringify(v)` is `v` for every well-formed value |
| MetadataService.Dedup | src/metadataService.ts:56 | `[...new Set(s)]` has the same elements as `s`, each once |
| MetadataService.SortTags | src/metadataService.ts:56 | the stored tags are the given tags, once each, in strictly ascending order |
| MetadataService.AscendingUnique | src/metadataService.ts:56 | two strictly ascending lists with the same elements are equal, so the stored form is unique |
| MetadataService.SortTagsBySet | src/metadataService.ts:56 | the stored tags depend only on the set of tags given |
| MetadataService.SortTagsIdempotent | src/metadataService.ts:56 | sorting stored tags again changes nothing |
| MetadataService.TagList | src/metadataService.ts:56 | an entry's tags are read exactly when its `tags` is an array of strings |
| MetadataService.MergedEntry | src/metadataService.ts:55-57 | fields other than `tags` are kept; given tags replace the old ones, sorted and deduplicated; without given tags an existing tag list is sorted and deduplicated; with neither the entry is unchanged |
| MetadataService.Merge | src/metadataService.ts:57 | the rule's entry becomes the merged entry and every other rule's entry is kept |
| MetadataService.ExistingIndexed | src/metadataService.ts:55-57 | a stored entry that is not an object spreads into the new entry as its array items, or its string's characters, under the keys "0", "1", …, never as a `tags` member; any other value spreads to nothing |
| MetadataService.StringEntrySpread | src/metadataService.ts:55-57 | a stored two-character string entry such as `"ab"`, saved with the tag `t`, becomes `{"0":"a","1":"b","tags":[t]}` |
| MetadataService.SpreadIndexed | src/metadataService.ts:57 | the members spread from an array or a string have distinct keys, the i-th being the decimal form of i |
| MetadataService.MergeTags | src/metadataService.ts:56-57 | after a merge with tags the rule's tags are those tags, sorted and deduplicated |
| MetadataService.SortByKey | src/metadataService.ts:60 | the entries are sorted by ID and are a permutation of the map's entries |
| MetadataService.SortByKeyAscending | src/metadataService.ts:60 | with distinct IDs the sorted entries strictly ascend |
| MetadataService.SortByKeyLookup | src/metadataService.ts:60 | sorting does not change what any ID looks up |
| MetadataService.EntryLines | src/metadataService.ts:60-63 | one line `  "<id>": <json>,` per entry, in the order given |
| MetadataService.SaveTextEmpty | src/metadataService.ts:64-66 | an empty map is written as `{`, an empty line and `}` |
| MetadataService.EmptyObjectLoads | src/metadataService.ts:25-30 | that text loads as the empty map, with either comma clean-up |
| MetadataService.Load | src/metadataService.ts:17-35 | without a workspace, or when the metadata file is not a readable file, the map is empty; otherwise it is the map loaded from the file's text, loading with the string-aware comma clean-up |
| MetadataService.LoadRulesMetadata | src/metadataService.ts:17-35 | the method returns the load of the file as it is on disk, loading with the string-aware comma clean-up |
| MetadataService.AsWrittenLoadAgrees | src/metadataService.ts:25-30 | when no string literal of the comment-free text holds a comma, white space and `}` or `]`, the loader as written loads what the string-aware loader loads |
| MetadataService.AsWrittenRoundTrip | src/metadataService.ts:25-30 | saved metadata whose strings hold no such comma reloads, under the loader as written, as its entries sorted by ID |
| Jsonc.AsWrittenAgrees | src/metadataService.ts:29 | when no string literal holds a comma, optional white space and then `}` or `]`, the comma clean-up as written gives the same text as the string-aware one |
| MetadataService.SaveLoadRoundTrip | src/metadataService.ts:60-66 | loading a saved map, with the string-aware comma clean-up, gives its entries sorted by ID, when IDs need no escaping and the entries are well formed |
| MetadataService.SaveLoadLookup | src/metadataService.ts:60-66 | after saving and loading, every ID looks up what it did before |
| MetadataService.AsWrittenDropsCommaInTag | src/metadataService.ts:29 | with the clean-up as written, a saved tag `a,]` comes back as `a]` |
| MetadataService.SaveOutcome | src/metadataService.ts:40-69 | the save succeeds exactly when there is a workspace, no file blocks the registry directory and the metadata path is no directory; then the file holds the serialised merge of the loaded map; without a workspace the disk is unchanged, loading with the string-aware comma clean-up |
| MetadataService.SaveRuleMetadata | src/metadataService.ts:40-69 | the method's new disk and result are the save outcome |
| MetadataService.SaveThenLoad | src/metadataService.ts:40-69 | after a successful save, loading gives the merged entry for the rule and every other rule's entry unchanged, loading with the string-aware comma clean-up |
| MetadataService.LoadAfterSave | src/metadataService.ts:40-69 | after a successful save the loaded map is the merged map sorted by ID, loading with the string-aware comma clean-up |
| MetadataService.AddTagOutcome | src/metadataService.ts:72-74 | a tag that is blank once trimmed changes nothing and succeeds |
| MetadataService.AddTagToRule | src/metadataService.ts:72-81 | the method's new disk and result are the add-tag outcome |
| MetadataService.AddedTags | src/metadataService.ts:76-80 | the rule's tags become its old tags plus the new one, sorted and deduplicated, so the tag is present |
| MetadataService.AddTagIdempotent | src/metadataService.ts:72-81 | adding the same tag twice gives the tags of adding it once |
| MetadataService.RemoveTagOutcome | src/metadataService.ts:84-87 | with no entry, or an entry without a tag list, nothing is written and the call succeeds (a `tags` that is not an array of strings counts as no tag list; see Left out) |
| MetadataService.RemoveTagFromRule | src/metadataService.ts:84-90 | the method's new disk and result are the remove-tag outcome |
| MetadataService.RemovedTags | src/metadataService.ts:88-89 | the rule's tags become its old tags without any occurrence of the tag, sorted: the tag is gone and every other tag stays |
| MetadataService.AddThenRemove | src/metadataService.ts:72-90 | adding a new tag and then removing it leaves the original tags, sorted and deduplicated |
| MetadataService.AddTagThenLoad | src/metadataService.ts:72-81 | on disk, after adding a tag the rule loads with its old tags plus the trimmed tag, sorted and deduplicated, and every other rule is unchanged, loading with the string-aware comma clean-up |
| MetadataService.RemoveTagThenLoad | src/metadataService.ts:84-90 | on disk, after removing a tag the rule loads without it and every other rule is unchanged, loading with the string-aware comma clean-up |
| RuleDiscovery.DiscoverFails | src/ruleDiscovery.ts:32-92 | discovery fails exactly when there is no workspace, which gives `No workspace folder found`, or the registry scan fails |
| RuleDiscovery.DiscoverShape | src/ruleDiscovery.ts:40-86 | a successful discovery is the team rules and user rules of the scanned directories, overlaid with the loaded tags, loading with the string-aware comma clean-up |
| RuleDiscovery.DiscoverAllRules | src/ruleDiscovery.ts:32-92 | the method returns the discovery outcome of the disk, loading with the string-aware comma clean-up |
| RuleDiscovery.GatherRules | src/ruleDiscovery.ts:51-66 | the loop over owner directories returns their rules in scan order and appends them to `allRules` |
| RuleDiscovery.OwnerRulesSnoc | src/ruleDiscovery.ts:51-57 | one more owner directory appends its own rules, keeping the order |
| RuleDiscovery.OverlayTags | src/ruleDiscovery.ts:70-75 | the in-place loop gives every rule its overlaid tags |
| RuleDiscovery.DiscoverPartition | src/ruleDiscovery.ts:45-83 | `allRules` is the team rules followed by the user rules, and `teams` and `users` are the scanned names |
| RuleDiscovery.DiscoverOwners | src/ruleDiscovery.ts:51-66 | a team rule carries a scanned team and no user and lies below that team's directory; a user rule carries a scanned user and no team and lies below that user's directory |
| RuleDiscovery.DiscoverTeamComplete | src/ruleDiscovery.ts:51-57 | every `.mdc` file of a scanned team that reads and validates yields a team rule for that team |
| RuleDiscovery.DiscoverUserComplete | src/ruleDiscovery.ts:60-66 | every `.mdc` file of a scanned user that reads and validates yields a user rule for that user |
| RuleDiscovery.TaggedChangesOnlyTags | src/ruleDiscovery.ts:71-74 | the overlay changes nothing but `tags`, sets them to the entry's array when there is one and otherwise leaves the rule as it is |
| RuleDiscovery.Overlay | src/ruleDiscovery.ts:70-75 | the overlaid list has the same length, each rule overlaid in place |
| RuleDiscovery.DiscoverTags | src/ruleDiscovery.ts:69-75 | every discovered rule carries exactly the tag array its metadata entry holds, or none, loading with the string-aware comma clean-up |
| RuleDiscovery.AddedTagDiscovered | src/ruleDiscovery.ts:69-75 | after a tag is added, discovery reports the rule with its old tags plus the new one, sorted, loading with the string-aware comma clean-up |
| RuleDiscovery.FindRule | src/ruleDiscovery.ts:132 | `find`: none exactly when no rule has the ID; otherwise the first rule with it |
| RuleDiscovery.GetRuleById | src/ruleDiscovery.ts:129-146 | no rule when discovery fails; otherwise the first discovered rule with the ID, loading with the string-aware comma clean-up |
| RuleDiscovery.GetTeamRules | src/ruleDiscovery.ts:97-108 | without a workspace an error; otherwise the rules of that team's directory |
| RuleDiscovery.GetUserRules | src/ruleDiscovery.ts:113-124 | without a workspace an error; otherwise the rules of that user's directory |
| RuleDiscovery.SingleTeamDiscovered | src/ruleDiscovery.ts:97-108 | every rule the single-team query returns for a scanned team is, with its tags overlaid, among the discovered team rules, loading with the string-aware comma clean-up |
| RuleDiscovery.SingleUserDiscovered | src/ruleDiscovery.ts:113-124 | every rule the single-user query returns for a scanned user is, with its tags overlaid, among the discovered user rules, loading with the string-aware comma clean-up |
| RuleDiscovery.NamedRulesSound | src/ruleDiscovery.ts:52-53 | every rule read from one owner's directory carries that owner, lies below that directory and has no tags yet |
| RuleDiscovery.NamedRulesComplete | src/ruleDiscovery.ts:52-53 | every accepted `.mdc` file below an owner's directory yields a rule for that owner |
| RuleDiscovery.OwnerRulesSound | src/ruleDiscovery.ts:51-57 | every gathered rule comes from one of the owner directories and carries that owner |
| RuleDiscovery.OwnerRulesComplete | src/ruleDiscovery.ts:51-57 | every accepted `.mdc` file of any listed owner directory is gathered |
| RuleDiscovery.OwnerRulesContain | src/ruleDiscovery.ts:51-57 | the rules of a listed owner are all among the gathered rules |
| RuleDiscovery.OverlayAppend | src/ruleDiscovery.ts:70-75 | the overlay of two concatenated lists is the concatenation of their overlays |
| RuleDiscovery.OverlaidSound | src/ruleDiscovery.ts:70-75 | every overlaid rule is a rule of the input that differs at most in its tags |
| RuleDiscovery.OverlaidMember | src/ruleDiscovery.ts:70-75 | every rule of the input is present after the overlay, with its tags overlaid |
| RuleDiscovery.UntaggedOverlay | src/ruleDiscovery.ts:70-75 | rules that had no tags end with exactly the tags of their metadata entry |
| RuleDiscovery.TagsForEntry | src/ruleDiscovery.ts:71-73 | an entry whose `tags` is a string array gives the rule that array |
| FileSystem.ReadFile | src/fileUtils.ts:225-232 | reading succeeds exactly when the path is a file, and then yields its text |
| FileSystem.Modified | src/fileUtils.ts:213-220 | a modification time exists exactly when the path is a file, and is that file's |
| FileSystem.MakeDirsSucceeds | src/fileUtils.ts:33-48 | a recursive `mkdir` succeeds exactly when no file lies on the way to the directory |
| FileSystem.MakeDirsFrame | src/fileUtils.ts:33-48 | a recursive `mkdir` only adds ancestors of the new directory, keeps every file and keeps every listing entry |
| FileSystem.MakeDirsCreates | src/fileUtils.ts:33-48 | after a recursive `mkdir` every prefix of the path is a directory |
| FileUtils.CandidateInjective | src/fileUtils.ts:196-205 | different attempts try different paths, so the loop never tries one twice |
| FileUtils.NumberedNotPlain | src/fileUtils.ts:200-203 | no numbered name `name-k.ext` equals the plain file name |
| FileUtils.CreateUniqueFilename | src/fileUtils.ts:196-208 | the path returned never exists; it is `basePath/filename` when that is free, otherwise the first free candidate, every earlier one being taken |
| FileUtils.MdcFiles | src/fileUtils.ts:104-131 | every collected path is a `.mdc` file strictly below the scanned directory |
| FileUtils.EntryCases | src/fileUtils.ts:114-124 | a subdirectory entry contributes its own scan, a file named `*.mdc` contributes itself, anything else nothing |
| FileUtils.MdcFilesExactly | src/fileUtils.ts:104-131 | a path is collected exactly when it is a `.mdc` file reached through directory listings from the scanned directory |
| FileUtils.ScanForMdcFiles | src/fileUtils.ts:104-131 | a missing directory gives no files, a file in its place an error, and a directory its depth-first, listing-order collection |
| FileUtils.ListSubdirectories | src/fileUtils.ts:78-91 | the names are exactly the listed entries that are directories; a missing directory gives none and a file in its place an error |
| FileUtils.ScanRegistryDirectories | src/fileUtils.ts:66-99 | `teams` and `users` are exactly the subdirectory names of `teams/` and `users/`; the scan fails only when one of them is a file |
| FileUtils.EnsureDir | src/fileUtils.ts:33-48 | an existing path is left alone; a missing one is created together with its parents |
| FileUtils.CreateRegistryStructure | src/fileUtils.ts:26-61 | the method's new disk and result are the step-by-step create-if-absent outcome |
| FileUtils.RegistryPresent | src/fileUtils.ts:26-55 | after a successful run, the registry, `teams/`, `users/` and the metadata file all exist and no file has changed |
| FileUtils.RegistryIdempotent | src/fileUtils.ts:26-55 | running again after a successful run succeeds and changes nothing |
| FileUtils.RegistryKeepsFiles | src/fileUtils.ts:50-55 | no existing file is overwritten, an existing metadata file included |
| FileUtils.KeepsOnFailure | src/fileUtils.ts:57-60 | even a failing run keeps every existing path and file |
| FileUtils.FreshRegistryLoadsEmpty | src/fileUtils.ts:51-54 | a freshly written metadata file, a one-line comment followed by `{}`, loads as the empty metadata map |
| FileSystem.ReadDir | src/fileUtils.ts:112 | a listing exists exactly when the path is a directory, and is its entries in order |
| FileSystem.WriteText | src/ruleApplication.ts:97 | `writeFile` succeeds exactly when the parent is a directory and the path is no directory; the path then reads back as the text, the parent lists it and no other path changes |
| FileSystem.Unlinked | src/ruleApplication.ts:282 | `unlink` succeeds exactly when the path is a file; the file is then gone from the disk and from its parent's listing, and no other path changes |
| FileSystem.FileStore.MakeDirectories | src/ruleApplication.ts:53 | the disk becomes the recursive `mkdir` outcome when it succeeds and is unchanged otherwise |
| FileSystem.FileStore.WriteFile | src/ruleApplication.ts:97 | the disk becomes the write outcome when it succeeds and is unchanged otherwise |
| FileSystem.FileStore.Unlink | src/ruleApplication.ts:282 | the disk becomes the unlink outcome when the path is a file and is unchanged otherwise |
| GoTeamParser.Search | src/goTeamParser.ts:140 | `exec` with the `g` flag: a match found is a match of the pattern at or after the last index |
| GoTeamParser.SearchLeftmost | src/goTeamParser.ts:140 | no match of the pattern starts between the last index and the match found |
| GoTeamParser.SearchNone | src/goTeamParser.ts:140 | when `exec` finds nothing, the pattern matches nowhere from the last index on |
| GoTeamParser.CaptureFound | src/goTeamParser.ts:167-171 | `String.match` captures something exactly when the pattern matches somewhere, and then it captures the first group of the leftmost match |
| GoTeamParser.ParseMemberInfoStruct | src/goTeamParser.ts:165-200 | a parsed member has a non-empty name and e-mail free of `"` |
| GoTeamParser.MemberNeedsNameAndEmail | src/goTeamParser.ts:173-175 | a member is parsed exactly when both `Name: "…"` and `Email: "…"` occur in the literal |
| GoTeamParser.ResolveReferences | src/goTeamParser.ts:323-340 | the loop keeps, in order, the members of the references that are non-empty, no skip word and defined |
| GoTeamParser.Resolve | src/goTeamParser.ts:323-340 | the resolved list has no more members than there are references |
| GoTeamParser.ParseMemberReferences | src/goTeamParser.ts:316-343 | the members of the comma-separated, trimmed references, resolved in order |
| GoTeamParser.ResolveIff | src/goTeamParser.ts:323-340 | a member is in the result exactly when some reference is resolvable and names it |
| GoTeamParser.ResolvedDefined | src/goTeamParser.ts:334-336 | every resolved member is a value of the member map |
| GoTeamParser.ResolveAppend | src/goTeamParser.ts:323-340 | resolving two reference lists one after the other gives the two results concatenated |
| GoTeamParser.MemberListReferences | src/goTeamParser.ts:321 | a `Members` list written one identifier per line with a trailing comma splits back into those identifiers and an empty last piece |
| GoTeamParser.MemberListRoundTrip | src/goTeamParser.ts:316-343 | such a list of defined members resolves to exactly those members, in order |
| GoTeamParser.ParseTeamInfoStruct | src/goTeamParser.ts:269-311 | a parsed team has a word as its name, and all its members come from the member map |
| GoTeamParser.TeamNeedsNameAndMembers | src/goTeamParser.ts:272-283 | a team is parsed exactly when both `TeamName: teamnames.X` and a `Members:` list occur in the literal |
| GoTeamParser.MatchingBrace | src/goTeamParser.ts:227-242 | the brace count ends at 0 exactly when some `}` closes the literal; the end index is then that brace, and otherwise stays at the start |
| GoTeamParser.Close | src/goTeamParser.ts:230-240 | the scan finds the first closing brace from the given index, or there is none |
| GoTeamParser.BraceEnd | src/goTeamParser.ts:230-240 | the matching brace found closes the literal, and when none is found no brace closes it |
| GoTeamParser.ClosesUnique | src/goTeamParser.ts:235-237 | at most one brace closes a literal |
| GoTeamParser.BalancedCloses | src/goTeamParser.ts:230-240 | when the text up to a `}` is balanced and never below its opening depth, that brace closes the literal |
| GoTeamParser.DefinitionOf | src/goTeamParser.ts:141-149 | one `MemberInfo` variable match defines its variable exactly when its literal parses |
| GoTeamParser.ParseMemberInfoVariables | src/goTeamParser.ts:127-160 | the map of each matched variable to its parsed member, with later definitions replacing earlier ones |
| GoTeamParser.MemberDefs | src/goTeamParser.ts:140-153 | every definition collected has a word as its variable and a member with a name and an e-mail |
| GoTeamParser.ToMapLast | src/goTeamParser.ts:147 | a variable is in the map exactly when it is defined, and it maps to its last definition |
| GoTeamParser.ToMapAppend | src/goTeamParser.ts:65-67 | the map built from two definition lists is the first map overridden by the second |
| GoTeamParser.LaterDefinitionWins | src/goTeamParser.ts:62-68 | across all files the member map holds each variable's last definition |
| GoTeamParser.TeamOf | src/goTeamParser.ts:242-256 | one `TeamInfo` variable gives a team exactly when its literal closes and parses |
| GoTeamParser.TeamAt | src/goTeamParser.ts:224-256 | at most one team per variable, all its members defined |
| GoTeamParser.ParseTeamDefinitions | src/goTeamParser.ts:205-264 | the teams of all matched `TeamInfo` variables, in order |
| GoTeamParser.TeamAtSound | src/goTeamParser.ts:224-256 | a team found after a header is that header's literal, closed by its matching brace and parsed |
| GoTeamParser.TeamDefsSound | src/goTeamParser.ts:205-264 | every reported team comes from a `var <name> = components.TeamInfo{` header whose literal closes and parses |
| GoTeamParser.TeamDefsNone | src/goTeamParser.ts:205-264 | without a header there is no team |
| GoTeamParser.TeamDefsFirst | src/goTeamParser.ts:205-264 | the first header's team, when its literal closes and parses, is the first team reported |
| GoTeamParser.GoFiles | src/goTeamParser.ts:100-122 | every file collected is a `.go` file below the directory |
| GoTeamParser.ScanGoFiles | src/goTeamParser.ts:100-122 | the recursive scan returns the `.go` files below the directory in listing order |
| GoTeamParser.Texts | src/goTeamParser.ts:63 | the file texts are read exactly when every listed path is a file, one text per path in order |
| GoTeamParser.TextsUnreadable | src/goTeamParser.ts:91-94 | one unreadable file makes the whole read fail |
| GoTeamParser.CollectMembers | src/goTeamParser.ts:62-68 | the first pass succeeds exactly when every file reads, and then builds the member map of all the files |
| GoTeamParser.CollectTeams | src/goTeamParser.ts:73-86 | the second pass collects every file's teams and the names of those the user belongs to |
| GoTeamParser.RecordTeams | src/goTeamParser.ts:77-85 | appending parsed teams keeps the user's team names equal to the membership test over all teams so far |
| GoTeamParser.ParseTeamMemberships | src/goTeamParser.ts:38-95 | no teams without a workspace root, without the team directory or when a file cannot be read; otherwise the teams of all `.go` files and the user's teams among them |
| GoTeamParser.UserTeamsIff | src/goTeamParser.ts:81-82 | a name is among the user's teams exactly when some team of that name has a member with the user's e-mail, ignoring case |
| GoTeamParser.UserTeamsIgnoreCase | src/goTeamParser.ts:81 | e-mail addresses that differ only in case get the same teams |
| GoTeamParser.UserTeamsInOrder | src/goTeamParser.ts:77-85 | the user's team names appear in the order of the teams |
| GoTeamParser.TeamMembersDefined | src/goTeamParser.ts:38-95 | every member of a reported team is a member variable defined in one of the `.go` files |
| GoTeamParser.MemberOptionalFields | src/goTeamParser.ts:182-192 | `GithubUsername`, `Manager` and `LaunchDarklyAccess` are set exactly when their patterns match; a flag is true exactly when its first match reads `true` and false exactly when it reads `false` |
| GoTeamParser.TeamOptionalFields | src/goTeamParser.ts:297-303 | `SlackContactChannel` and `GithubNameOverride` are set exactly when their patterns match |

## Left out

- `getAppliedRules` (`src/ruleApplication.ts:169-207`) is not modelled. It lists the applied directory and reads the configuration back out of each file for display. Nothing in the rule pipeline depends on it.
- `getAvailableTeams` and `getAvailableUsers` (`src/ruleDiscovery.ts:151-172`) are not modelled. They only return the scan the model already covers.
- `copyFile`, `removeFile`, `fileExists`, `directoryExists`, `writeFileContent`, `getFileStats` and `readFileContent` are not modelled one by one. They are thin wrappers over `fs`, and they appear as the `FileSystem` functions and the `FileStore` methods that the core actually calls.
- Error messages from the real file system are fixed stand-ins, such as `RuleApplication.CannotWrite` or `ENOENT: cannot read <name>`. The text of Node's errors is not modelled; the messages the code writes itself are kept.
- `getWorkspaceRoot`, `getRegistryDirName`, `process.cwd()`, the clock and `META_FILE_WARNING` are parameters. Editor configuration and the real environment are outside the model.
- YAML decoding is a parameter that may fail. The YAML library itself is not modelled.
- Logging through `info` and `error` is left out. It has no effect on results.
- `async`/`await` and the dynamic `import()` calls are modelled as plain sequential calls. There is no concurrency model, so interleaved read-modify-write of the metadata file is not covered.
- `toLowerCase` is modelled for ASCII letters only. Unicode case mapping is not modelled.
- `localeCompare` is modelled as code-point order. The locale-dependent collation is not modelled.
- Modification times are integers. `toISOString` formatting is not modelled, and the sort compares the integers.
- In `parseTeamMemberships`, the second pass reads the same files again. The model reads the unchanged disk, so both passes see the same text.
- `RuleConfiguration.ReadBackCorrected`: the round trip is stated only for headers made of plain lines and for globs without `"`, `,`, `]`, `:` or line breaks. Other globs are written in a form the reader cannot split back.
- `MetadataService.SaveLoadRoundTrip`: the round trip is stated only for IDs that need no JSON escaping and for entries whose strings hold no U+2028 or U+2029. The comment clean-up treats those two characters as line ends.
- `MetadataService.Load`: `JSON.parse` output that is not an object is taken as empty metadata. The code returns the value itself, with these effects:
  - `null`: every later lookup throws a TypeError, in discovery at `src/ruleDiscovery.ts:71` and in a save at `src/metadataService.ts:56`.
  - An array such as `[1]`: discovery overlays no tags. `saveRuleMetadata` sets the rule's entry on the array, and `Object.entries` writes its elements beside it (`"0": 1,`). The model writes the rule's entry alone.
  - A number, string or boolean: discovery overlays no tags, and the assignment at `src/metadataService.ts:57` throws, so the save fails. The model saves the rule's entry.
- `MetadataService.Load` uses the string-aware comma clean-up. The expression as written is modelled beside it (see Findings).
- `MetadataService.LoadRulesMetadata`, `MetadataService.SaveOutcome`, `MetadataService.SaveThenLoad`, `MetadataService.LoadAfterSave`, `MetadataService.AddTagThenLoad`, `MetadataService.RemoveTagThenLoad`, `RuleDiscovery.DiscoverShape`, `RuleDiscovery.DiscoverAllRules`, `RuleDiscovery.DiscoverTags`, `RuleDiscovery.AddedTagDiscovered`, `RuleDiscovery.SingleTeamDiscovered`, `RuleDiscovery.SingleUserDiscovered` and `RuleDiscovery.GetRuleById` all load through `MetadataService.Load`. The code as written breaks their save-then-load statements for any string in the metadata holding a comma, optional white space and then `}` or `]`: such a string reloads without the comma (see Findings).
- `MetadataService.Load`: a metadata file holding a lone surrogate escape loads as empty metadata, where `JSON.parse` would load it (next line).
- `Json.ParseString`: a lone surrogate escape, such as `\uD800` with no low escape after it, is rejected. A Dafny `char` cannot hold a lone surrogate, while `JSON.parse` builds a string that holds one. A metadata file with such an escape therefore loads as empty metadata in the model. Escaped surrogate pairs are decoded.
- `Json.ParseMemberValue` and `MetadataService.MergedEntry`: an object's members keep their text order. A JavaScript object lists integer-like keys such as `"1"` first, in ascending order, and so do `JSON.parse` and the spread merge at `src/metadataService.ts:57`. A hand-edited entry `{"b":1,"1":2}` is saved back as `{"1":2,"b":1}` by the code and unchanged by the model. Rule IDs and `tags` are never integer-like: an ID always ends in `_mdc`.
- Strings are sequences of Unicode code points, where JavaScript stores UTF-16 code units. The two agree on every result here except the ID replacement at `src/mdcParser.ts:179`, which is modelled per code unit (`MdcParser.SanitiseChar`), and the spread of a string entry (next line). The brace scan in `parseTeamDefinitions` and the `# ` prefix cut look only at basic-plane characters.
- `MetadataService.Existing`: a stored string entry is spread one member per character, where the spread at `src/metadataService.ts:57` makes one member per UTF-16 code unit. For a character above U+FFFF the code writes two members holding lone surrogates, which a Dafny `char` cannot hold. `MetadataService.Merge` therefore differs for such entries only.
- JSON numbers are kept as their lexemes. `JSON.stringify`'s renormalisation of numbers such as `1.0` is not modelled.
- `MetadataService.MergedEntry`: with no tags given, an existing `tags` that is not an array of strings leaves the entry unchanged. The code at `src/metadataService.ts:56` spreads a truthy `tags` instead. A string gives its characters, sorted, so `"ba"` is saved as `["a","b"]`. A number, `true` or an object makes the spread throw.
- `MetadataService.AddTagOutcome` and `MetadataService.AddTagToRule`: an entry whose `tags` is not an array of strings counts as having no tags, so `[tag]` is saved. The code differs at `src/metadataService.ts:78`:
  - `new Set(entry.tags ?? [])` throws for a number, a boolean or an object;
  - a string gives its characters, so `"xy"` plus `z` saves `["x","y","z"]`;
  - an array keeps its non-string items, and the `localeCompare` sort at :56 can then throw.
- `MetadataService.RemoveTagOutcome` and `MetadataService.RemoveTagFromRule`: an entry whose `tags` is not an array of strings counts as having no tags, so nothing is written and the call succeeds. The code agrees only when `tags` is falsy. A truthy `tags` passes the guard at `src/metadataService.ts:87`:
  - a non-empty string, a non-zero number, `true` or an object has no `filter`, so the call throws at :88;
  - an array holding a non-string is filtered with its non-strings kept, so `{"tags": [1, "a"]}` without `a` is saved as `{"tags":[1]}`; with two or more items left, the `localeCompare` sort at :56 can throw.
- MdcParser.SortRules: the JavaScript sort is stable, but the contract states only that the result is sorted and a permutation. The relative order of rules with equal keys is not stated.
- `getContentSnippets`, which the test file imports, does not exist in `src/mdcParser.ts` and is not modelled.
- The user e-mail lookup in `src/gitIntegration.ts` is not part of this model. `parseTeamMemberships` receives the e-mail as a parameter.

## Findings

| source | as written | input that shows it | evidently intended | confidence | as-written member | corrected member |
|---|---|---|---|---|---|---|
| src/ruleApplication.ts:225-231 | the strategy is read with `applyStrategy:\s*(\w+)`, which stops at the space inside `Auto Attached` and captures `Auto`, a name that is not adopted | applying a rule with strategy `Auto Attached` writes `applyStrategy: Auto Attached`, which reads back as `Always` | the reader recovers every strategy the writer records | not executed | RuleConfiguration.NeverAutoAttached | RuleConfiguration.ReadBackCorrected |
| src/metadataService.ts:29 | the trailing-comma clean-up `/,\s*([}\]])/g` also rewrites commas inside string literals | saving the tag `a,]` for rule `r` writes `["a,]"]`, which reloads as the tag `a]` | only commas outside strings are dropped, so that saved metadata reloads as itself | not executed | MetadataService.AsWrittenDropsCommaInTag | MetadataService.SaveLoadRoundTrip |
