# build-helper-maven-plugin, modelled in Dafny

This project models the text-rewriting and lookup core of the
`build-helper-maven-plugin` Maven plugin and proves properties of the model.
It covers four goals.

- **site-index** (`SiteIndexMojo`) turns a project's `README.md` into the
  site's index page. It writes an HTML head with the title. It makes inline
  Markdown links `[text](destination)` into the project's own site relative
  by dropping the project URL from the destination. This applies when the
  link text holds no `]` and the destination no `)`. Reference-style links
  and `<…>` autolinks are left as they are. For each configured badge
  pattern, it removes the badge images. A badge is either a plain image or an
  image inside a link. It is removed either after a space or when it stands
  on a line of its own.
- **fix-site-anchors** (`FixSiteAnchorsMojo`) finds every `src="…"` and
  `href="…"` attribute in a generated site page. It applies the configured
  literal replace-alls to the attribute's value, by default `.28` → `(`,
  `.29` → `)` and `.25` → `%`, in that order. Everything else in the page
  stays as it is.
- **license lookup** (`AbstractLicenseMojo`) looks for the license file in
  the project's base directory. Then it looks in up to `maxParentCount`
  parent directories. It refuses a filename that leads out of the base
  directory. It stops at a Git root and at a directory that is neither a
  Maven project nor a Git root.
- **join-paths** (`JoinPathsMojo`) joins the configured paths with the
  path separator. It publishes the result as a project property. It fails
  when that property already holds a different value.

The model follows the code. The code rewrites text with regular expressions
and a copy loop: `find()` the next match, copy the text before it, then
append the kept part.

Modules:

- `Strings` (`strings.dfy`): the `Option` type, substring tests, and
  `String.replace` as `ReplaceAll`.
- `Splice` (`splice.dfy`): what a copy loop builds. An edit replaces one
  range. Applying a sequence of ordered edits copies the gaps between them.
- `Regex` (`regex.dfy`): the regular-expression fragment the patterns use.
  The fragment has literal characters, quoted literals, and groups `[^c]*`
  followed by `c`. It comes with a matcher that is proved sound and complete
  against spelling out a match.
- `Markdown` (`markdown.dfy`): the link and image markup.
- `SiteMatch` (`site_match.dfy`): one match of each site-index pattern at a
  given offset.
- `SiteIndex` (`site_index.dfy`): the site-index loops, the passes and
  `generateSiteIndex`.
- `SiteAnchors` (`fix_site_anchors.dfy`): the `Replacement` bean, the
  mojo's replacement array, the attribute loop and `fixSiteAnchorsInUrl`.
- `License` (`license.dfy`): paths, `normalize`/`resolve`/`getParent`, and
  `findLicenseFile` with its outcomes.
- `JoinPaths` (`join_paths.dfy`): `String.join`, the project `Properties`
  object and `execute`.

Failures are values, not exceptions. The `MojoFailureException`s of the
license lookup are `License.Outcome` values. The property conflict of
join-paths is `JoinPaths.JoinOutcome.PropertyExists`. A `NullPointerException`
the code would throw is also a value: `NullParent`, `NullPaths`,
`BadgePatternsNull`, or `None` for a replacement with a null field or a
missing badge pattern array. Debug and info log lines are lists of
events that carry the message arguments.

## Model

All source paths are under `src/main/java/com/github/robtimus/maven/plugins/buildhelper/`.

| member | source | states |
|---|---|---|
| SiteIndex.FindHit | src/main/java/com/github/robtimus/maven/plugins/buildhelper/SiteIndexMojo.java:186 | `matcher.find()` from the cursor returns the leftmost match: the hit is a match at its start, and no position between the cursor and that start (or up to the end, when there is no hit) holds a match |
| SiteIndex.HitsMatch | src/main/java/com/github/robtimus/maven/plugins/buildhelper/SiteIndexMojo.java:184-198 | every match the loop visits is a real match of the pattern at its start, after the cursor, inside the content, and successive matches do not overlap and come in order |
| SiteIndex.HitsSkipNothing | src/main/java/com/github/robtimus/maven/plugins/buildhelper/SiteIndexMojo.java:184-198 | the loop misses no match: a position that is neither the start nor the inside of a visited match holds no match |
| SiteIndex.HitsFit | src/main/java/com/github/robtimus/maven/plugins/buildhelper/SiteIndexMojo.java:184-198 | the ranges the loop drops are ordered, inside the content, and only delete text |
| SiteIndex.Rewrite | src/main/java/com/github/robtimus/maven/plugins/buildhelper/SiteIndexMojo.java:184-199 | the copy loop (`append` up to the cut, keep the rest of the match, move the cursor to the match end, log one debug line) produces exactly the content with every match's cut removed, and logs one event per match in order |
| SiteIndex.RewrittenLength | src/main/java/com/github/robtimus/maven/plugins/buildhelper/SiteIndexMojo.java:184-199 | the output is the input shortened by exactly the total length of the removed ranges, and never longer than the input |
| SiteIndex.RewrittenRestores | src/main/java/com/github/robtimus/maven/plugins/buildhelper/SiteIndexMojo.java:184-199 | nothing outside the removed ranges is lost: putting the removed text back at the same places gives the original content |
| SiteIndex.RewrittenUnchanged | src/main/java/com/github/robtimus/maven/plugins/buildhelper/SiteIndexMojo.java:184-199 | content with no match anywhere comes out unchanged, and nothing is logged |
| SiteIndex.RewrittenFirst | src/main/java/com/github/robtimus/maven/plugins/buildhelper/SiteIndexMojo.java:186-196 | when the first match is at `p`, the first logged event is that match's, and the text before its cut is copied unchanged |
| SiteIndex.RemoveProjectUrl | src/main/java/com/github/robtimus/maven/plugins/buildhelper/SiteIndexMojo.java:173-200 | a blank (null, empty or all-whitespace) project URL leaves the content as is and logs nothing; otherwise the result is the project-URL pass over the content |
| SiteIndex.BlankHalves | src/main/java/com/github/robtimus/maven/plugins/buildhelper/SiteIndexMojo.java:174 | `StringUtils.isBlank` depends on the characters alone: a text is blank exactly when both its halves are; the empty text and space, tab, line feed and carriage return are blank; a no-break space (U+00A0, U+2007, U+202F) is not, since `Character.isWhitespace` leaves it out |
| SiteIndex.ProjectUrlPassCuts | src/main/java/com/github/robtimus/maven/plugins/buildhelper/SiteIndexMojo.java:179-196 | every range the project-URL pass drops sits inside a Markdown link `[text](u relative)`, is exactly the project URL `u`, and is logged with the full URL and the relative part |
| SiteIndex.ProjectUrlCut | src/main/java/com/github/robtimus/maven/plugins/buildhelper/SiteIndexMojo.java:191-192 | for a link `[text](u relative)`, the dropped range is exactly the project URL, so the link keeps its text and becomes `[text](relative)` |
| SiteIndex.RemoveBadgesWithPattern | src/main/java/com/github/robtimus/maven/plugins/buildhelper/SiteIndexMojo.java:210-217 | runs the four badge passes in the source's order (linked in-line, plain in-line, linked own-line, plain own-line), each on the previous one's output, and logs their events in that order |
| SiteIndex.RunFourPasses | src/main/java/com/github/robtimus/maven/plugins/buildhelper/SiteIndexMojo.java:210-217 | four passes are the fourth applied to the third applied to the second applied to the first, with the logs concatenated in the same order |
| SiteIndex.RemoveBadges | src/main/java/com/github/robtimus/maven/plugins/buildhelper/SiteIndexMojo.java:202-208 | the badge patterns are applied one after another in configuration order, each to the previous result, with their logs in that order; a null pattern array (none configured) fails with the `NullPointerException` of the for-each loop and logs nothing |
| SiteIndex.RunPassesShorten | src/main/java/com/github/robtimus/maven/plugins/buildhelper/SiteIndexMojo.java:210-217 | a row of passes never makes the content longer |
| SiteIndex.BadgePassIdle | src/main/java/com/github/robtimus/maven/plugins/buildhelper/SiteIndexMojo.java:230-283 | an in-line badge pass changes nothing in text without a space, and an own-line pass nothing in text without a line feed |
| SiteIndex.BadgesRemovedNotIdempotent | src/main/java/com/github/robtimus/maven/plugins/buildhelper/SiteIndexMojo.java:202-217 | `removeBadges` is not idempotent: with one pattern accepting `u`, ` [ ![a](u)![a](u)](l)` becomes ` [![a](u)](l)`, since the plain in-line pass runs after the linked one and its cut leaves a linked badge, and a second run turns that into the empty text |
| SiteIndex.BadgesRemovedShorten | src/main/java/com/github/robtimus/maven/plugins/buildhelper/SiteIndexMojo.java:202-208 | badge removal never makes the content longer, whatever the patterns |
| SiteIndex.BadgePassShortens | src/main/java/com/github/robtimus/maven/plugins/buildhelper/SiteIndexMojo.java:237-250 | a badge pass that finds a badge makes the content strictly shorter |
| SiteIndex.BadgePassCuts | src/main/java/com/github/robtimus/maven/plugins/buildhelper/SiteIndexMojo.java:230-283 | every range a badge pass drops is a whole badge: the leading space or line start, the badge markup whose URL the pattern accepts, and the line break of the own-line passes |
| SiteIndex.GenerateSiteIndex | src/main/java/com/github/robtimus/maven/plugins/buildhelper/SiteIndexMojo.java:122-145 | when skipped, nothing is written and nothing logged; otherwise the written page is the header followed by the README with project URLs made relative and then badges removed, and the log is the project-URL events followed by the badge events; with a null badge pattern array the target holds only the header, the project-URL events are logged, and the run fails |
| SiteIndex.HeaderTitle | src/main/java/com/github/robtimus/maven/plugins/buildhelper/SiteIndexMojo.java:165-170 | the header is the lines `<head>`, `  <title>` with the title and `</title>`, `</head>` and an empty line: 34 characters besides the title, which reads back from between the tags |
| SiteIndex.SiteIndexShape | src/main/java/com/github/robtimus/maven/plugins/buildhelper/SiteIndexMojo.java:133-138 | the page always starts with the HTML head and, whatever the project URL and patterns, is no longer than the head plus the README |
| SiteMatch.TextTokensSpell | src/main/java/com/github/robtimus/maven/plugins/buildhelper/SiteIndexMojo.java:56 | `TEXT_REGEX` has one group, which cannot hold `]`, and a match spells `[text]` |
| SiteMatch.ProjectUrlTokensSpell | src/main/java/com/github/robtimus/maven/plugins/buildhelper/SiteIndexMojo.java:179 | the destination part of the project-URL regex has one group (the relative part), which cannot hold `)`, and a match spells `(u relative)` with `u` quoted literally |
| SiteMatch.ImageTokensSpell | src/main/java/com/github/robtimus/maven/plugins/buildhelper/SiteIndexMojo.java:265 | the badge image part has the text and URL groups, neither crossing its closing bracket, and a match spells `![text](url)` |
| SiteMatch.LinkTailTokensSpell | src/main/java/com/github/robtimus/maven/plugins/buildhelper/SiteIndexMojo.java:231-232 | the link part `LINK_REGEX` has one group free of `)`, and a match spells `](link)` |
| SiteMatch.ProjectUrlHitSound | src/main/java/com/github/robtimus/maven/plugins/buildhelper/SiteIndexMojo.java:179-192 | a project-URL match at `p` is a link `[text](u relative)` with text free of `]` and relative part free of `)`, and its cut is the URL right after `](` |
| SiteMatch.ProjectUrlHitComplete | src/main/java/com/github/robtimus/maven/plugins/buildhelper/SiteIndexMojo.java:179-192 | conversely, every such link at `p` is matched there, with exactly those groups |
| SiteMatch.BadgeHitSound | src/main/java/com/github/robtimus/maven/plugins/buildhelper/SiteIndexMojo.java:230-283 | a badge match at `p` is a badge there: the lead-in of its placement, the (linked) image whose URL, less an optional `?query`, the pattern accepts, and for own-line passes the `\r?\n` after it |
| SiteMatch.BadgeHitComplete | src/main/java/com/github/robtimus/maven/plugins/buildhelper/SiteIndexMojo.java:230-283 | conversely, every such badge at `p` is matched there, and the whole of it is cut |
| SiteMatch.BadgeTextCut | src/main/java/com/github/robtimus/maven/plugins/buildhelper/SiteIndexMojo.java:244-245 | the text a badge match removes is the whole matched badge, lead-in and line break included |
| Regex.MatchSound | src/main/java/com/github/robtimus/maven/plugins/buildhelper/SiteIndexMojo.java:55-60 | what the matcher reports at an offset is spelt there by the pattern with the reported groups, and ends where that spelling ends |
| Regex.MatchComplete | src/main/java/com/github/robtimus/maven/plugins/buildhelper/SiteIndexMojo.java:55-60 | a pattern spelt at an offset with groups it can hold is matched there, with those groups and that end |
| SiteAnchors.Defaults | src/main/java/com/github/robtimus/maven/plugins/buildhelper/FixSiteAnchorsMojo.java:85-89 | three default replacements, each of a three-character escape by one character |
| SiteAnchors.Replacement.Empty | src/main/java/com/github/robtimus/maven/plugins/buildhelper/FixSiteAnchorsMojo.java:189-190 | a bean made by Maven starts with both fields null |
| SiteAnchors.Replacement.constructor | src/main/java/com/github/robtimus/maven/plugins/buildhelper/FixSiteAnchorsMojo.java:192-196 | the two-argument constructor sets both fields |
| SiteAnchors.Replacement.GetSearch | src/main/java/com/github/robtimus/maven/plugins/buildhelper/FixSiteAnchorsMojo.java:203-205 | the getter returns the search field |
| SiteAnchors.Replacement.SetSearch | src/main/java/com/github/robtimus/maven/plugins/buildhelper/FixSiteAnchorsMojo.java:212-214 | the setter changes the search field and leaves the replace field |
| SiteAnchors.Replacement.GetReplace | src/main/java/com/github/robtimus/maven/plugins/buildhelper/FixSiteAnchorsMojo.java:221-223 | the getter returns the replace field |
| SiteAnchors.Replacement.SetReplace | src/main/java/com/github/robtimus/maven/plugins/buildhelper/FixSiteAnchorsMojo.java:230-232 | the setter changes the replace field and leaves the search field |
| SiteAnchors.Replacement.ToString | src/main/java/com/github/robtimus/maven/plugins/buildhelper/FixSiteAnchorsMojo.java:236-238 | the text is the search, then ` => `, then the replace, with a null field written `null` |
| SiteAnchors.Replacement.Value | src/main/java/com/github/robtimus/maven/plugins/buildhelper/FixSiteAnchorsMojo.java:170 | a bean can be applied exactly when neither field is null, and then it replaces its search by its replace |
| SiteAnchors.SubstitutionsOfBeans | src/main/java/com/github/robtimus/maven/plugins/buildhelper/FixSiteAnchorsMojo.java:169-171 | the replacements can all be applied exactly when no bean has a null field, and they are the beans' values in array order |
| SiteAnchors.SubstitutionsOfNull | src/main/java/com/github/robtimus/maven/plugins/buildhelper/FixSiteAnchorsMojo.java:169-171 | one bean with a null field anywhere in the array makes the row fail |
| SiteAnchors.SubstitutionsOf | src/main/java/com/github/robtimus/maven/plugins/buildhelper/FixSiteAnchorsMojo.java:169-171 | the replacements of the beans, one per bean in array order; when there are none, some bean has a null field |
| SiteAnchors.FixSiteAnchors.constructor | src/main/java/com/github/robtimus/maven/plugins/buildhelper/FixSiteAnchorsMojo.java:85-89 | a new mojo holds three beans whose replacements are the defaults, in order |
| SiteAnchors.FixSiteAnchors.FixSiteAnchorsInUrl | src/main/java/com/github/robtimus/maven/plugins/buildhelper/FixSiteAnchorsMojo.java:167-173 | the loop fails exactly when a bean has a null field; otherwise it returns the URL with every replacement applied in array order |
| SiteAnchors.FixedUrlThen | src/main/java/com/github/robtimus/maven/plugins/buildhelper/FixSiteAnchorsMojo.java:169-171 | applying two rows of replacements in a row is applying the first, then the second to its output |
| SiteAnchors.FixedUrlUnchanged | src/main/java/com/github/robtimus/maven/plugins/buildhelper/FixSiteAnchorsMojo.java:167-173 | a URL that contains none of the (non-empty) search strings is returned unchanged |
| SiteAnchors.DefaultsInOrder | src/main/java/com/github/robtimus/maven/plugins/buildhelper/FixSiteAnchorsMojo.java:85-89 | with the defaults, the URL is fixed by replacing `.28`, then `.29`, then `.25` |
| SiteAnchors.MethodAnchorFixed | src/main/java/com/github/robtimus/maven/plugins/buildhelper/FixSiteAnchorsMojo.java:85-89 | a Javadoc method anchor `pre.28params.29` becomes `pre(params)` whenever `pre` and `params` contain none of `.28`, `.29`, `.25`, for example `https://example.org/index.html#anchor.28int.29` |
| SiteAnchors.EscapedPercentFixed | src/main/java/com/github/robtimus/maven/plugins/buildhelper/FixSiteAnchorsMojo.java:85-89 | because `.25` is replaced last, `pre.2528` becomes `pre%28` and not `pre(` whenever `pre` contains none of `.28`, `.29`, `.25` |
| SiteAnchors.AttributeSound | src/main/java/com/github/robtimus/maven/plugins/buildhelper/FixSiteAnchorsMojo.java:49 | an attribute match at `p` is `name="value"` with a value free of `"` |
| SiteAnchors.AttributeComplete | src/main/java/com/github/robtimus/maven/plugins/buildhelper/FixSiteAnchorsMojo.java:49 | every `name="value"` at `p` is matched there, with the value as its group |
| SiteAnchors.TagSound | src/main/java/com/github/robtimus/maven/plugins/buildhelper/FixSiteAnchorsMojo.java:49 | a `TAG_PATTERN` match at `p` is a `src="…"` or `href="…"` attribute, and its group is the value between the quotes |
| SiteAnchors.TagComplete | src/main/java/com/github/robtimus/maven/plugins/buildhelper/FixSiteAnchorsMojo.java:49 | every `src="…"` or `href="…"` attribute at `p` is matched there |
| SiteAnchors.FindTag | src/main/java/com/github/robtimus/maven/plugins/buildhelper/FixSiteAnchorsMojo.java:146 | `find()` gives the leftmost attribute from the cursor, and no attribute starts before it |
| SiteAnchors.LogLine | src/main/java/com/github/robtimus/maven/plugins/buildhelper/FixSiteAnchorsMojo.java:157-159 | a debug line is logged exactly when the fixed value differs from the value |
| SiteAnchors.AnchorEditsFit | src/main/java/com/github/robtimus/maven/plugins/buildhelper/FixSiteAnchorsMojo.java:146-162 | the replaced ranges are ordered and inside the page |
| SiteAnchors.FixSiteAnchors.FixAnchors | src/main/java/com/github/robtimus/maven/plugins/buildhelper/FixSiteAnchorsMojo.java:142-165 | the loop gives the page with each attribute value replaced by its fixed value, and logs one line per changed value; a bean with a null field fails it when there is an attribute, and a page without attributes is returned as is |
| SiteAnchors.FixSiteAnchors.FixFile | src/main/java/com/github/robtimus/maven/plugins/buildhelper/FixSiteAnchorsMojo.java:116-124 | announces the file first, then writes the fixed page and logs the fix lines; when a replacement has a null field, only the announcement is logged |
| SiteAnchors.AnchorEditsAreValues | src/main/java/com/github/robtimus/maven/plugins/buildhelper/FixSiteAnchorsMojo.java:147-155 | each replaced range is the value of a `src` or `href` attribute, and it is replaced by that value with the replacements applied |
| SiteAnchors.AnchoredRestores | src/main/java/com/github/robtimus/maven/plugins/buildhelper/FixSiteAnchorsMojo.java:151-163 | only attribute values change: putting the original values back gives the original page |
| SiteAnchors.AnchorLogEmpty | src/main/java/com/github/robtimus/maven/plugins/buildhelper/FixSiteAnchorsMojo.java:157-159 | nothing is logged exactly when every attribute value comes out unchanged |
| SiteAnchors.VerbatimAnchored | src/main/java/com/github/robtimus/maven/plugins/buildhelper/FixSiteAnchorsMojo.java:151-163 | when nothing is logged, the page is written back unchanged |
| SiteAnchors.NoAttributeUnchanged | src/main/java/com/github/robtimus/maven/plugins/buildhelper/FixSiteAnchorsMojo.java:143-164 | a page with no `src` or `href` attribute comes out unchanged, whatever the replacements, even with a null field |
| SiteAnchors.NoSearchUnchanged | src/main/java/com/github/robtimus/maven/plugins/buildhelper/FixSiteAnchorsMojo.java:146-170 | when no attribute value contains a search string, the page comes out unchanged and nothing is logged |
| Strings.ReplaceWithItself | src/main/java/com/github/robtimus/maven/plugins/buildhelper/FixSiteAnchorsMojo.java:170 | replacing a string by itself changes nothing, also when the search is empty |
| Strings.ReplaceNotLonger | src/main/java/com/github/robtimus/maven/plugins/buildhelper/FixSiteAnchorsMojo.java:170 | a replacement no longer than its non-empty search never makes the value longer |
| Strings.ReplaceEmptyTarget | src/main/java/com/github/robtimus/maven/plugins/buildhelper/FixSiteAnchorsMojo.java:170 | `String.replace` with an empty search puts the replacement before every character and once more at the end: the result grows by one copy per character plus one, starts and ends with a copy, and has the first character right after the first copy |
| Strings.ReplaceFront | src/main/java/com/github/robtimus/maven/plugins/buildhelper/FixSiteAnchorsMojo.java:170 | an occurrence of a non-empty search at the scan position is replaced and the scan resumes after it, so text a replacement produces is not scanned again and occurrences do not overlap |
| Strings.ReplaceSkip | src/main/java/com/github/robtimus/maven/plugins/buildhelper/FixSiteAnchorsMojo.java:170 | a character that cannot start the search is copied and the scan moves on by one: the string is scanned left to right |
| Strings.ReplaceMiss | src/main/java/com/github/robtimus/maven/plugins/buildhelper/FixSiteAnchorsMojo.java:170 | where the text differs from the search, only its first character is copied before the scan resumes, so an occurrence starting one character later is still found |
| Strings.ReplaceAbsent | src/main/java/com/github/robtimus/maven/plugins/buildhelper/FixSiteAnchorsMojo.java:170 | a non-empty search that occurs nowhere leaves the string unchanged |
| License.Normalize | src/main/java/com/github/robtimus/maven/plugins/buildhelper/AbstractLicenseMojo.java:74 | a normalised path has no `.` or `..` names and is no longer than the input |
| License.NormalizeIdempotent | src/main/java/com/github/robtimus/maven/plugins/buildhelper/AbstractLicenseMojo.java:74 | normalising twice is normalising once |
| License.NormalizeBelow | src/main/java/com/github/robtimus/maven/plugins/buildhelper/AbstractLicenseMojo.java:76-77 | a relative filename without `..` resolved against a normal directory stays below that directory |
| License.PlainFilenameAccepted | src/main/java/com/github/robtimus/maven/plugins/buildhelper/AbstractLicenseMojo.java:76-80 | a relative filename without `..` is never rejected as invalid |
| License.ParentFilenameRejected | src/main/java/com/github/robtimus/maven/plugins/buildhelper/AbstractLicenseMojo.java:76-80 | `../name` that does not lead back into the base directory is rejected as an invalid filename |
| License.Climb | src/main/java/com/github/robtimus/maven/plugins/buildhelper/AbstractLicenseMojo.java:86-101 | a file the parent search reports exists, and the parent search never reports an invalid filename |
| License.Search | src/main/java/com/github/robtimus/maven/plugins/buildhelper/AbstractLicenseMojo.java:73-102 | a file the lookup reports exists |
| License.AbortIfGitRoot | src/main/java/com/github/robtimus/maven/plugins/buildhelper/AbstractLicenseMojo.java:104-108 | fails, with "leaving Git project", exactly when the directory holds a `.git` directory |
| License.FindLicenseFile | src/main/java/com/github/robtimus/maven/plugins/buildhelper/AbstractLicenseMojo.java:73-102 | the counted loop ends as the lookup specifies, and logs the debug line only for a found file |
| License.Execute | src/main/java/com/github/robtimus/maven/plugins/buildhelper/AbstractLicenseMojo.java:61-69 | when skipped, only the info line is logged and no lookup happens; otherwise a found file is processed and a failure is passed on |
| License.ClimbReaches | src/main/java/com/github/robtimus/maven/plugins/buildhelper/AbstractLicenseMojo.java:86-99 | while the ancestors can be passed and hold no license file, the search moves up one level per turn |
| License.ClimbFinds | src/main/java/com/github/robtimus/maven/plugins/buildhelper/AbstractLicenseMojo.java:86-98 | the file in the nearest passable ancestor within reach that has one is the file found |
| License.ClimbStopsAtGitRoot | src/main/java/com/github/robtimus/maven/plugins/buildhelper/AbstractLicenseMojo.java:86-88 | reaching a Git root with turns left fails with "leaving Git project" |
| License.ClimbExhausted | src/main/java/com/github/robtimus/maven/plugins/buildhelper/AbstractLicenseMojo.java:86-101 | after `maxParentCount` passable ancestors without the file, the search fails with "file not found", naming the last directory |
| License.ClimbFoundSound | src/main/java/com/github/robtimus/maven/plugins/buildhelper/AbstractLicenseMojo.java:94-97 | a file the parent search finds is the candidate in an ancestor 1 to `left` levels up |
| License.ClimbGitSound | src/main/java/com/github/robtimus/maven/plugins/buildhelper/AbstractLicenseMojo.java:87 | "leaving Git project" means the starting directory or an ancestor fewer than `left` levels above it is a Git root |
| License.ClimbMavenSound | src/main/java/com/github/robtimus/maven/plugins/buildhelper/AbstractLicenseMojo.java:89-92 | "leaving Maven project" means some ancestor within reach is neither a Maven project nor a Git root |
| License.ClimbNullSound | src/main/java/com/github/robtimus/maven/plugins/buildhelper/AbstractLicenseMojo.java:89-90 | the null parent is only reached when more parents are asked for than the directory has |
| License.ClimbNotFoundSound | src/main/java/com/github/robtimus/maven/plugins/buildhelper/AbstractLicenseMojo.java:101 | "file not found" names the filename and the directory the loop stopped in, `maxParentCount` levels up |
| License.SearchFoundSound | src/main/java/com/github/robtimus/maven/plugins/buildhelper/AbstractLicenseMojo.java:73-102 | a found license file is the candidate in the base directory or in an ancestor at most `maxParentCount` levels up |
| License.NoParentsOnlyBaseDir | src/main/java/com/github/robtimus/maven/plugins/buildhelper/AbstractLicenseMojo.java:76-101 | with `maxParentCount` of zero or less, only the base directory is examined |
| License.ClimbLeavesMaven | src/main/java/com/github/robtimus/maven/plugins/buildhelper/AbstractLicenseMojo.java:86-92 | when the search passes up to a level with turns left, and the parent of that level is neither a Maven project nor a Git root, it fails with "leaving Maven project" |
| License.FolderTests | src/main/java/com/github/robtimus/maven/plugins/buildhelper/MojoUtils.java:28-34 | a Maven project folder has `pom.xml` resolved against it as a regular file, a Git root has `.git` as a directory; a directory `pom.xml` or a file `.git` does not count |
| License.ResolveBelow | src/main/java/com/github/robtimus/maven/plugins/buildhelper/AbstractLicenseMojo.java:76 | `resolve` puts a relative filename below the directory, its names after the directory's, and makes an absolute filename ignore the directory |
| License.StartsWithOrder | src/main/java/com/github/robtimus/maven/plugins/buildhelper/AbstractLicenseMojo.java:77 | `startsWith` compares whole names: every path starts with itself, a prefix of a prefix is a prefix, and two paths that start with each other are equal |
| License.Parent | src/main/java/com/github/robtimus/maven/plugins/buildhelper/AbstractLicenseMojo.java:89 | `getParent` of a path below the root drops its last name: one name shorter, and a prefix of the path |
| JoinPaths.JoinLength | src/main/java/com/github/robtimus/maven/plugins/buildhelper/JoinPathsMojo.java:64 | the joined text is as long as all the paths together plus one separator for each gap between two paths |
| JoinPaths.JoinAppend | src/main/java/com/github/robtimus/maven/plugins/buildhelper/JoinPathsMojo.java:64 | `String.join` of one path is that path, and each further path appends the separator and then that path to what was joined so far |
| JoinPaths.SplitJoin | src/main/java/com/github/robtimus/maven/plugins/buildhelper/JoinPathsMojo.java:64 | with a one-character separator that no path contains, splitting the joined text at it gives the paths back |
| JoinPaths.Properties.constructor | src/main/java/com/github/robtimus/maven/plugins/buildhelper/JoinPathsMojo.java:66 | the project's properties hold the given values |
| JoinPaths.Properties.GetProperty | src/main/java/com/github/robtimus/maven/plugins/buildhelper/JoinPathsMojo.java:67 | null exactly when the property is not set, and its value otherwise |
| JoinPaths.Properties.SetProperty | src/main/java/com/github/robtimus/maven/plugins/buildhelper/JoinPathsMojo.java:71 | the property holds the value afterwards, and no other property changes |
| JoinPaths.Publish | src/main/java/com/github/robtimus/maven/plugins/buildhelper/JoinPathsMojo.java:67-71 | publishing succeeds exactly when the property is unset or already holds the joined value; then it holds the joined value; on a conflict the failure names the property and its value and nothing changes; no other property ever changes |
| JoinPaths.PublishTwice | src/main/java/com/github/robtimus/maven/plugins/buildhelper/JoinPathsMojo.java:67-71 | running the goal a second time with the same paths succeeds and changes nothing |
| JoinPaths.PublishSame | src/main/java/com/github/robtimus/maven/plugins/buildhelper/JoinPathsMojo.java:68-71 | a property that already holds the joined value is left exactly as it was |
| JoinPaths.Execute | src/main/java/com/github/robtimus/maven/plugins/buildhelper/JoinPathsMojo.java:62-72 | a missing paths array fails and changes nothing; otherwise the properties end as the conflict rule says for the paths joined with the separator |

## Left out

- Reading and writing files is not modelled, nor are charsets. This covers `getCharset`, `createTargetDir`, `readContent` and `writeContent`, and the try-with-resources around them. Their I/O errors are left out too. The README and the pages are string parameters, and what is written is a result.
- The `execute()` methods of site-index and fix-site-anchors are not modelled. They resolve the files from the project and loop over the configured files. `GenerateSiteIndex` and `FixFile` model the work done for one file.
- The texts of the `Messages` bundle are not modelled. Log lines are events that carry the message arguments.
- GenerateSiteIndex: its events do not include the two info lines, "skipped" and "generated". A skipped run returns an empty log.
- The `java.util.regex` engine in general is not modelled. The model covers the fixed shapes of these patterns, which never need backtracking across a group. A configured badge pattern is modelled as the set of URLs it fully matches. The URL group is taken up to the first `)`, and an optional `?query` is allowed after any accepted URL. This is exact only for a badge pattern that behaves as one unit. Such a pattern cannot match `)`. It has no alternation at its top level: `a|b` lets the `?query` follow only `b`. It has no anchors or lookarounds that look past the URL.
- The project URL is matched as a literal string, as `Pattern.quote` makes it. A regex failure from a pattern that does not compile is left out.
- The license lookup assumes the base directory is already absolute, so `Path.toAbsolutePath` is left out. The license filename arrives already parsed into names. Symbolic links are not modelled. The file system is a snapshot of its regular files and directories.
- `processLicenseFile` and `JarLicenseMojo` are not modelled. Processing is abstract in the lookup; `Execute` reports the file it would pass on.
- A null `replacements` array in fix-site-anchors is not modelled. Null fields in its beans are.
- Null elements in the join-paths array are not modelled. `String.join` would write them as `null`. A null `propertyName` is not modelled either; `Properties.getProperty` would throw for it.
- The defaults list of `java.util.Properties` is not modelled.
- Strings are sequences of Unicode scalar values here, while Java strings are sequences of UTF-16 code units. `ReplaceAll` with an empty search inserts the replacement once per character. `String.replace("", r)` also inserts it between the two halves of a surrogate pair, so for characters outside the Basic Multilingual Plane the Java result is longer. Offsets and lengths elsewhere count characters, not code units.
- BadgesRemoved: no idempotence is stated, because `removeBadges` is not idempotent. A pass can cut text so that a badge an earlier pass would have removed appears, and running `removeBadges` again removes it. `BadgesRemovedNotIdempotent` gives such an input.
- `File.pathSeparator` is a parameter, since it depends on the platform.
