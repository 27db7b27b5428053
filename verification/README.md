# ChromeDriver download-link resolver, modelled in Dafny

The page `src/pages/Index.tsx` lets a user type a Chrome version and pick a
Windows platform, then renders a direct link into the public
"chrome-for-testing" storage bucket. It can also pre-fill both fields from what
the browser says about itself. This project models that logic as pure functions
over an immutable state record and proves what it does:

- `version.dfy` (`Version`): `isValidVersion`, written as a left-to-right
  scanner (`Scan`) rather than a regular expression. It is proved equal to a
  declarative reading: `s.split(".")` gives exactly four non-empty digit runs.
  `SplitDots` and `JoinDots` model `split(".")` and `join(".")` and are proved
  inverse to each other.
- `whitespace.dfy` (`Whitespace`): `String.prototype.trim`. It is proved to
  remove exactly a whitespace prefix and a whitespace suffix, and to be
  idempotent.
- `platforms.dfy` (`Platforms`): the closed `PLATFORMS` list, `win64` first.
- `download.dfy` (`Download`): `getDownloadUrl` and the `download` file name.
  A parser proves that the URL determines the version and the platform.
- `textmatch.dfy` (`TextMatch`): leftmost literal search and ASCII
  case-insensitive search, used for the unanchored `/i` marker tests. The
  page's other two regular-expression behaviours live next to their use: the
  anchored `^[0-9]+\.[0-9]+\.[0-9]+\.[0-9]+$` match is `Version.Scan`, and the
  greedy `([0-9.]+)` capture after `Chrome/` is `Detection.VersionCharRun`.
- `detection.dfy` (`Detection`): `detectChromeInfo`. Its inputs are the
  resolved high-entropy client hints (`None` when the API is missing or its
  promise rejects) and the user-agent string.
- `resolver.dfy` (`Resolver`): the state `{version, platform, generated,
  error}`, the handlers, the render gate, and runs of user events.

Along the way, the model shows three facts about the program:
- `setError` is only ever called with `""`, so the error alert can never appear.
- In every reachable state, a valid version always has `generated` set. The
  gate `generated && isValidVersion(version)` therefore reduces to
  `isValidVersion(version)`.
- The initial `generated = true` is harmless, because `""` is not a version.

The model follows the code's expressions literally, with these consequences:
- The user-agent fallback captures `[0-9.]+`, which need not be a dotted quad.
  Such a capture is shown but never applied.
- A high-entropy bitness is used only when it is truthy.
- A result without `fullVersionList` makes `.find` throw. The `catch` then
  also drops a bitness that was present.
- `x86_64` contains `x86` but not `x64`, so it is classed as 32-bit.

## Model

| member | source | states |
|---|---|---|
| Version.Scan | src/pages/Index.tsx:102-103 | the left-to-right recogniser of the anchored pattern accepts a remainder only if it ends in a digit (or is empty with a group already open), and only if it starts with a digit when no group is open |
| Version.IsValidVersion | src/pages/Index.tsx:102-103 | an accepted version is non-empty and starts and ends with an ASCII digit |
| Version.ValidVersionIffFourGroups | src/pages/Index.tsx:102-103 | the hand-coded check accepts a string exactly when splitting it at dots gives four non-empty all-digit groups |
| Version.ValidVersionIsFourRuns | src/pages/Index.tsx:102-103 | every accepted string is literally four digit runs joined by single dots, nothing before or after |
| Version.FourRunsAreValidVersion | src/pages/Index.tsx:102-103 | any four non-empty digit runs joined by dots are accepted |
| Version.ValidVersionCharacters | src/pages/Index.tsx:102-103 | an accepted version holds only ASCII digits and dots (so no `/`, `_` or whitespace) |
| Version.ValidVersionExample | src/pages/Index.tsx:102-103 | `131.0.6778.140` is accepted |
| Version.InvalidVersionExamples | src/pages/Index.tsx:102-103 | `""`, `131.0.6778` and `131.0.6778.140a` are rejected |
| Version.JoinSplitDots | src/pages/Index.tsx:102-103 | joining the dot-separated pieces restores the string |
| Version.SplitJoinDots | src/pages/Index.tsx:102-103 | splitting a join of dot-free pieces gives the pieces back |
| Whitespace.Trim | src/pages/Index.tsx:139 | the trimmed text starts and ends with non-whitespace and is the input minus a whitespace prefix and suffix |
| Whitespace.TrimOfPadded | src/pages/Index.tsx:139 | padding a trimmed string with whitespace and trimming gives it back, so trim is fully determined |
| Whitespace.TrimIdempotent | src/pages/Index.tsx:139 | trimming twice equals trimming once |
| Options.FalsyValues | src/pages/Index.tsx:111-115 | the truthiness tests reject exactly `null` and `""`; every other string, `"0"` included, passes |
| Platforms.FromValue | src/pages/Index.tsx:14-17 | a value names at most one platform, and exactly the one whose value it is |
| Platforms.FromValueRoundTrip | src/pages/Index.tsx:14-17 | every platform is recovered from its value; no two platforms share a value |
| Download.DownloadUrl | src/pages/Index.tsx:105-106 | the URL is the bucket prefix, then the version verbatim, then `/p/chromedriver-p.zip`, with nothing escaped or dropped |
| Download.ParseDownloadUrlRoundTrip | src/pages/Index.tsx:105-106 | for a valid version, the version and platform are recovered from the download URL |
| Download.ParseDownloadUrlSound | src/pages/Index.tsx:105-106 | every URL the parser accepts is exactly the template applied to what it returns |
| Download.DownloadUrlInjective | src/pages/Index.tsx:105-106 | distinct (valid version, platform) pairs give distinct URLs |
| Download.PlatformOfTail | src/pages/Index.tsx:105-106 | the part after the version identifies the platform uniquely |
| Download.DownloadFileName | src/pages/Index.tsx:272 | the file name is the version verbatim, `_`, the platform value, then `.zip` |
| Download.DownloadFileNameInjective | src/pages/Index.tsx:272 | the `download` name `${version}_${platform}.zip` determines version and platform |
| TextMatch.FindIgnoringCase | src/pages/Index.tsx:74-77 | the search returns the leftmost ASCII case-insensitive occurrence at or after the start, or reports that none exists |
| TextMatch.ContainsIgnoringCaseIff | src/pages/Index.tsx:74-77 | a case-insensitive `test` succeeds exactly when an occurrence exists |
| Detection.FindChromeEntry | src/pages/Index.tsx:51-53 | `find` returns the first entry whose brand contains Chrome or Chromium ignoring case, or none when no entry does |
| Detection.FirstChromeEntryIsFound | src/pages/Index.tsx:51-53 | `find` stops at the first Chrome or Chromium entry, whatever follows it |
| Detection.HighEntropyFields | src/pages/Index.tsx:43-64 | the high-entropy step never yields an empty bitness |
| Detection.UaVersion | src/pages/Index.tsx:66-70 | the fallback is absent exactly when no `Chrome/` is followed by a digit or dot; otherwise it is the maximal digits-and-dots run after the leftmost such token |
| Detection.UaBitness | src/pages/Index.tsx:71-79 | "64" iff the UA mentions WOW64, Win64 or x64 (any case); "32" iff it mentions none of those but Win32, i686 or x86; absent otherwise |
| Detection.DetectChromeInfo | src/pages/Index.tsx:39-79 | detection is total (it never throws) and never reports an empty version or bitness |
| Detection.DetectVersionFromBrandList | src/pages/Index.tsx:51-56 | the version of the first Chrome/Chromium brand entry wins when it is non-empty |
| Detection.DetectVersionFromUserAgent | src/pages/Index.tsx:66-70 | without such a brand version, the version comes from the user agent |
| Detection.DetectBitnessFromHighEntropy | src/pages/Index.tsx:57-60 | a truthy high-entropy bitness wins when the brand list was present |
| Detection.DetectBitnessFromUserAgent | src/pages/Index.tsx:71-79 | in every other case the bitness is the user-agent guess |
| Detection.MissingBrandListDiscardsBitness | src/pages/Index.tsx:45-63 | a result without `fullVersionList` behaves as no result at all, bitness included; both then come from the user agent |
| Detection.X86_64IsClassedAs32Bit | src/pages/Index.tsx:74-78 | a user agent containing only `x86_64` is classed as 32-bit |
| Detection.UaVersionNeedNotBeValid | src/pages/Index.tsx:68-69 | the fallback captures `1..2` from `Chrome/1..2`, which is not a valid version |
| Resolver.Initial | src/pages/Index.tsx:26-29 | the first state (the four `useState` fields held in `Resolver.State`) has the flag set and no error, yet shows no download link |
| Resolver.HandleVersionChange | src/pages/Index.tsx:138-143 | the trimmed input is stored even when invalid, the flag holds iff it splits into four digit groups, the error is cleared, the platform is kept |
| Resolver.HandlePlatformChange | src/pages/Index.tsx:145-149 | the platform is stored, the version kept, the error cleared, the flag recomputed as the validity of the kept version, so the link shows iff that version is valid |
| Resolver.PlatformForBitness | src/pages/Index.tsx:116 | bitness "64" selects win64; any other value selects win32 |
| Resolver.UseDetectedInfo | src/pages/Index.tsx:110-119 | the version is adopted (flag set) only when present and valid, else untouched; the platform is win64 iff the bitness is "64", win32 for other non-empty bitness, unchanged without one; the error is cleared |
| Resolver.ClearError | src/pages/Index.tsx:108 | dismissing clears the error and leaves version, platform and flag, hence whether the link shows, unchanged |
| Resolver.ShowsDownload | src/pages/Index.tsx:268 | the gate opens only with the flag set on a non-empty version with no surrounding whitespace |
| Resolver.DownloadLink | src/pages/Index.tsx:268-272 | a link is rendered iff the flag is set and the version valid, and its URL parses back to the current version and platform |
| Resolver.ClipboardUrl | src/pages/Index.tsx:152 | the inline template used for copying equals `getDownloadUrl(version, platform)` |
| Resolver.DownloadLinkAgreesWithClipboard | src/pages/Index.tsx:268-272 | the rendered link's URL is the copied URL and its file name is `${version}_${platform}.zip` |
| Resolver.HandlePlatformChangeIdempotent | src/pages/Index.tsx:145-149 | choosing the same platform twice equals choosing it once |
| Resolver.HandleVersionChangeIdempotent | src/pages/Index.tsx:138-143 | re-entering the same text changes nothing, and pre-trimming the input makes no difference |
| Resolver.VersionAndPlatformCommute | src/pages/Index.tsx:138-149 | typing a version and choosing a platform give the same state in either order |
| Resolver.UseDetectedVersionIsTyping | src/pages/Index.tsx:110-114 | applying a detected valid version alone equals typing that version |
| Resolver.UseDetectedInfoWithNothing | src/pages/Index.tsx:110-119 | with no truthy detected field, applying detected info only clears the error |
| Resolver.Step | src/pages/Index.tsx:108-149 | every handler leaves the error empty, and none lowers the flag on a valid version: a valid version with the flag down after an event was already there, flag down, before it |
| Resolver.Run | src/pages/Index.tsx:108-149 | after any non-empty sequence of events the error is empty, and a state with no error whose valid version has the flag set stays that way |
| Resolver.ReachableStatesGateOnValidity | src/pages/Index.tsx:268 | in every reachable state the error is empty and the link is shown iff the version is valid |
| Resolver.ValidVersionIsTrimmed | src/pages/Index.tsx:139-141 | a valid version has no surrounding whitespace, so trimming leaves it unchanged |
| Resolver.PaddedVersionIsReady | src/pages/Index.tsx:138-141 | a valid version typed with any whitespace around it (such as ` 131.0.6778.140 `) is stored without the whitespace and makes the link show |
| Resolver.UseDetectedInfoSelectsBoth | src/pages/Index.tsx:110-118 | a detected valid version with bitness "64" sets version, win64 and the flag at once; (absent, "32") changes only the platform, to win32 |
| Resolver.UnusableDetectedVersionIsIgnored | src/pages/Index.tsx:66-69 | for any client hints that yield no version and any user agent whose `Chrome/` capture is not a dotted quad, that capture is the detected version but applying it leaves the version and the flag as they were |
| Resolver.UnusableDetectedVersionExample | src/pages/Index.tsx:68-69 | `Chrome/1..2` with no client hints is such a case |

## Left out

- Rendering, toasts, the `isCopied` timer, `handleClick` and `navigator.clipboard`: these are UI and asynchronous I/O, and they hold no resolver logic.
- The calls to `navigator.userAgentData.getHighEntropyValues` and the reads of `navigator.userAgent` are browser APIs. Their results are inputs to `Detection.DetectChromeInfo`. A missing API and a rejected promise are both modelled as `None`.
- The `isMounted` guard on the asynchronous write of the detection result is async lifecycle, not sequential logic. The detection result is passed as an argument to `Resolver.UseDetectedInfo`.
- `Whitespace.Trim`: uses a fixed whitespace set, the ECMAScript WhiteSpace and LineTerminator code points with the Unicode Zs category as currently defined. An engine built on another Unicode version may differ.
- Strings are sequences of Unicode scalar values, not UTF-16 code units. This makes no difference to the ASCII patterns matched here.
- `TextMatch.FindIgnoringCase`: folds only ASCII letters. That is exact for the ASCII patterns used: a non-unicode `/i` regular expression never folds a non-ASCII character onto an ASCII one.
- `Detection.HighEntropyFields`: models brands, versions and bitness as strings. Non-string values are not modelled; neither is an entry missing its `version` field, which the code treats like an empty version.
- `Resolver.HandlePlatformChange`: takes a `Platform`, not an arbitrary string. The radio group only offers the values in `PLATFORMS`.
- The ad banners (`src/components/LeftAdBanner.tsx`, `src/components/BottomAdBanner.tsx`) and the empty ad-initialisation effect are decorative markup with timers and no data logic.
- No check that the generated URL exists upstream, because the code never performs one.
