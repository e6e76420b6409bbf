# Verified models of clawhq-platform components

Dafny models of eleven source files of clawhq-platform, with machine-checked proofs of what those files
promise over whole runs, for all inputs. `dafny verify dfyconfig.toml` checks everything.

| file | models |
|---|---|
| Paths.dfy, ImportGraph.dfy, CommonAncestor.dfy, Relocation.dfy | collecting the relative-import graph of a module, finding the common ancestor, copying the graph under a fresh root, and when the copy means the same |
| AgentSocket.dfy | the shared WebSocket manager with its reconnect timer, polling fallback and ring buffer, under every interleaving of events |
| Gate.dfy | the sliding-window rate limiter with one-minute blocks |
| ProxyLimiter.dfy | the fixed-window rate limiter with throttled pruning |
| Calendar.dfy, Decimal.dfy, Powers.dfy, ReleaseVersion.dfy, SparkleBuild.dfy | release versions, their order, and the Sparkle build numbers derived from them |
| OrgTree.dfy | the organisation tree built from manager slugs |
| Utf16.dfy | surrogate-safe slicing and truncation |
| DockerLogs.dfy | the Docker log stream demultiplexer |
| Watermark.dfy | the zero-width prompt watermark and its detection |
| ToolGuard.dfy | tool-chain detection over a capped history |

Conventions. Code that updates state is a class or a method with loops, proved equal to a function of the
old state; the theorems are lemmas about that function and about runs of it. Time, the browser's events,
the file system, the regular expression that extracts import specifiers, the per-call tool checks and the
64 bits of SHA-256 that the watermark uses enter as parameters or state. The stable vocabulary:

- A path is its sequence of segments, `[]` being the root. A file system maps each regular file to the
  import specifiers in its text; directories are the proper prefixes of files.
- `Step` of AgentSocket ignores an event the browser could not deliver in that state, so every sequence of
  events is a run. A socket opens only out of the connecting state, hence never after `close()`.
- Gate times are real seconds from the epoch on, proxy times integer milliseconds.
- `parseInt` of a long digit string rounds to the nearest double, ties to even, as section 6.1.6.1 of
  ECMA-262 has numbers; a result that would be infinite is no integer. UTC dates follow section 21.4.1.
- UTF-16 is section 2 of RFC 2781.

Where the code and what it is for part ways, the code is modelled and the exact condition proved, for all
inputs or runs:

- imports lost by the copy (`OnRootExact`, `ClimbingExact`; an instance in `ClimbingImportLost`);
- giving up on reconnecting after a constructor exception (`NeverGivesUp` gives the condition,
  `ThrowStrands` what follows);
- a stale connected flag (`ConnectedIsTrue`; an instance in `ConnectedFlagIsStale`);
- versions that compare equal beyond 2^53 (`EqualUpToRounding`; an instance in `TwoBetasCollide`);
- builds that are not in the order of their versions (`BuildsOrderExactly`);
- watermark patterns too short to detect (`PatternIsFull`, `RoundTrip`, `ShortPatternIsLost`).

Two functions are also described on inputs that their only callers never pass. `resolveCommonAncestor` can
stop too deep (`CommonAncestorExact`, `AncestorTooDeep`), but its caller lists the package root first, and
then it is right (`RootIsShared`). `buildOrgTree` drops agents with an empty manager slug
(`AppearsExactlyOnce`, `EmptyManagerDrops`), but the package parser stores none, and then an agent appears
exactly once if its manager chain ends and never otherwise (`ParsedAgentsAppearOnce`).

## Model

| member | source | states |
|---|---|---|
| Paths.WalkInside | services/openclaw/scripts/load-channel-config-surface.ts:107-109 | Resolving segments that never climb above a directory commutes with moving that directory anywhere. |
| Paths.WalkEscapes | services/openclaw/scripts/load-channel-config-surface.ts:107-109 | Resolving segments that climb above a directory ends outside it, unless they name its last segment. |
| Paths.SplitStep | services/openclaw/scripts/load-channel-config-surface.ts:107-109 | A specifier's text splits at its first slash into the segment before it and the segments after it. |
| ImportGraph.StemReassembles | services/openclaw/scripts/load-channel-config-surface.ts:90-93 | Stem and extension of a path, put together, are the path. |
| ImportGraph.ResolveImportCandidates | services/openclaw/scripts/load-channel-config-surface.ts:89-104 | The Set holds exactly the tried candidates in order of first insertion, without repeats. |
| ImportGraph.DistinctKeepsFirst | services/openclaw/scripts/load-channel-config-surface.ts:91-103 | Dropping repeats never changes which candidate wins, keeps the same candidates, and leaves no repeat. |
| ImportGraph.FirstFileIsFirst | services/openclaw/scripts/load-channel-config-surface.ts:107-114 | The resolved file is a candidate that exists and no earlier candidate does; nothing is found exactly when no candidate exists. |
| ImportGraph.ResolveRelativeImportPath | services/openclaw/scripts/load-channel-config-surface.ts:106-115 | The loop over the candidates computes the resolution used by every other statement. |
| ImportGraph.TargetsAreImports | services/openclaw/scripts/load-channel-config-surface.ts:131-139 | What one file pushes on the queue is exactly what it imports. |
| ImportGraph.PushImports | services/openclaw/scripts/load-channel-config-surface.ts:131-140 | Processing one file appends the resolved relative imports in textual order. |
| ImportGraph.ChainStaysInside | services/openclaw/scripts/load-channel-config-surface.ts:117-144 | A set of files closed under imports that holds the start of an import chain holds its end. |
| ImportGraph.CollectRelativeImportGraph | services/openclaw/scripts/load-channel-config-surface.ts:117-144 | Terminates; fails exactly on a missing entry; otherwise returns exactly the reflexive-transitive closure of the resolved relative imports. |
| CommonAncestor.ClimbsWhen | services/openclaw/scripts/load-channel-config-surface.ts:154 | The loop climbs exactly while the candidate is neither below the ancestor nor its immediate parent. |
| CommonAncestor.ClimbFor | services/openclaw/scripts/load-channel-config-surface.ts:154-160 | The inner loop stops at the deepest prefix of the first path that the candidate allows. |
| CommonAncestor.ResolveCommonAncestor | services/openclaw/scripts/load-channel-config-surface.ts:146-163 | Terminates; fails exactly on no paths; otherwise returns the prefix of the first path of the minimum allowed depth. |
| CommonAncestor.MinSharedIsLongest | services/openclaw/scripts/load-channel-config-surface.ts:146-163 | The minimum shared length with the first path is the longest common directory prefix of all paths. |
| CommonAncestor.DepthVersusShared | services/openclaw/scripts/load-channel-config-surface.ts:154-160 | The depth reached lies between the common prefix of all paths and that of the paths that are not proper prefixes of the first. |
| CommonAncestor.CommonAncestorExact | services/openclaw/scripts/load-channel-config-surface.ts:146-163 | The result is the longest common directory prefix of all paths if and only if every later path that is a proper directory prefix of the first is at or below the common prefix of the others. |
| CommonAncestor.AncestorTooDeep | services/openclaw/scripts/load-channel-config-surface.ts:154 | The bare function on a path and its own directory: for /a/b and /a the walk stays at /a/b. |
| Relocation.ResolvePackageRoot | services/openclaw/scripts/load-channel-config-surface.ts:57-69 | The nearest directory at or above the module's own that holds a package.json, or nothing when none does. |
| Relocation.RootIsShared | services/openclaw/scripts/load-channel-config-surface.ts:174 | With the package root first, a directory that no file is in the way of, the ancestor is the longest common directory prefix, and a proper prefix of every discovered file. |
| Relocation.SharedRoot | services/openclaw/scripts/load-channel-config-surface.ts:174 | The copied root is the longest directory prefix shared by the package root and all discovered files, strictly above every file, whatever the order of the set. |
| Relocation.CopyFiles | services/openclaw/scripts/load-channel-config-surface.ts:180-185 | Below the fresh root there are afterwards exactly the copies, each with its original text; every path outside is unchanged. |
| Relocation.CopyModuleImportGraph | services/openclaw/scripts/load-channel-config-surface.ts:165-192 | The whole operation: fails exactly when there is no package root or no module; takes as root the longest directory prefix shared by the package root and the import closure; copies exactly the closure, changes nothing else, and returns the module's copy. |
| Relocation.RebaseInjective | services/openclaw/scripts/load-channel-config-surface.ts:181-182 | Distinct files are copied to distinct places. |
| Relocation.TriedBelow | services/openclaw/scripts/load-channel-config-surface.ts:89-104 | The candidates of a target strictly below a root are the root followed by the candidates of the relative target. |
| Relocation.FirstFileShift | services/openclaw/scripts/load-channel-config-surface.ts:106-115 | The first existing candidate in the copy is the copy of the first existing candidate among the discovered files. |
| Relocation.InsidePreserved | services/openclaw/scripts/load-channel-config-surface.ts:165-192 | For every discovered file and relative specifier that never climbs above the copied root and ends strictly below it, resolution in the copy gives the copy of the original target, and nothing when it gave nothing. |
| Relocation.OnRootExact | services/openclaw/scripts/load-channel-config-surface.ts:165-192 | A specifier ending exactly on the copied root is preserved in the isolated tree if and only if the names of both roots agree on having an extension or no index file of the root was copied (stated for the filesystem root as well). |
| Relocation.ClimbingExact | services/openclaw/scripts/load-channel-config-surface.ts:165-192 | A specifier that climbs above the copied root, and does not spell the fresh directory's name, is preserved in the isolated tree if and only if it resolved to nothing. |
| Relocation.ClimbingImportLost | services/openclaw/scripts/load-channel-config-surface.ts:165-192 | Concrete failure on a package and its copied tree: /p/a.ts finds ../p/b.ts, its copy under /t/x does not. |
| Relocation.ImportsCorrespond | services/openclaw/scripts/load-channel-config-surface.ts:165-192 | In a self-contained graph the imports of a copy are exactly the copies of the imports of its original. |
| Relocation.CopiedGraph | services/openclaw/scripts/load-channel-config-surface.ts:165-192 | Collecting the import graph of the copied module gives exactly the copies of the original graph. |
| AgentSocket.SocketManager.StartPollingFallback | apps/dashboard/lib/use-agent-socket.ts:79-92 | At most one interval is started, and it is the remembered one. |
| AgentSocket.SocketManager.StopPollingFallback | apps/dashboard/lib/use-agent-socket.ts:94-99 | The remembered interval is cleared and forgotten. |
| AgentSocket.SocketManager.Reconnect | apps/dashboard/lib/use-agent-socket.ts:138-145 | A second reconnect is not scheduled; scheduling doubles the delay up to thirty seconds. |
| AgentSocket.SocketManager.ConnectWs | apps/dashboard/lib/use-agent-socket.ts:147-159 | Keeps a connecting or open socket; otherwise replaces it, or on a constructor exception falls back to polling without a timer. |
| AgentSocket.SocketManager.OpenHandler | apps/dashboard/lib/use-agent-socket.ts:161-166 | Opening resets the delay, raises the connected flag and stops polling, whichever socket opened. |
| AgentSocket.SocketManager.CloseHandler | apps/dashboard/lib/use-agent-socket.ts:179-185 | A close event with its handler still attached lowers the flag and, with consumers, starts polling and schedules a reconnect. |
| AgentSocket.SocketManager.ErrorHandler | apps/dashboard/lib/use-agent-socket.ts:187-191 | An error of any socket, stale ones included, closes the current one. |
| AgentSocket.SocketManager.MountWs | apps/dashboard/lib/use-agent-socket.ts:194-205 | Only the first consumer connects, or polls when there is no URL. |
| AgentSocket.SocketManager.UnmountWs | apps/dashboard/lib/use-agent-socket.ts:207-224 | The last consumer tears everything down; the count never goes below zero. |
| AgentSocket.SocketManager.MessageHandler | apps/dashboard/lib/use-agent-socket.ts:168-177 | Messages of unknown shape change nothing; others enter the ring buffer. |
| AgentSocket.SocketManager.PollCompletes | apps/dashboard/lib/use-agent-socket.ts:81-91 | A poll that completes, even after polling stopped, lowers the flag and clears the error only when it succeeded. |
| AgentSocket.SocketManager.TimerCallback | apps/dashboard/lib/use-agent-socket.ts:140-143 | The reconnect callback forgets the timer and connects. |
| AgentSocket.StepKeepsInv | apps/dashboard/lib/use-agent-socket.ts:138-224 | Every callback, of current and stale sockets alike, keeps the invariant. |
| AgentSocket.RunKeepsInv | apps/dashboard/lib/use-agent-socket.ts:103-224 | The invariant holds after every finite interleaving of events. |
| AgentSocket.EveryInterleaving | apps/dashboard/lib/use-agent-socket.ts:103-224 | In every interleaving: no consumers means no socket, no live connection, no timer, no polling and the initial delay; at most one timer and one interval are armed; polling implies not connected; at most one socket is live; with consumers, the current socket has not delivered its close event or polling is active. |
| AgentSocket.SocketManager.constructor | apps/dashboard/lib/use-agent-socket.ts:32-106 | The module variables start in the initial state, which meets the invariant. |
| AgentSocket.RunKeepsLinked | apps/dashboard/lib/use-agent-socket.ts:138-224 | In every interleaving only the current socket still has a close handler and an undelivered close event, and a pending reconnect means that the current socket has delivered its close. |
| AgentSocket.NeverGivesUp | apps/dashboard/lib/use-agent-socket.ts:138-224 | In every interleaving, while there are consumers and a URL: a socket is attached or a reconnect is pending if and only if the last call of the WebSocket constructor since somebody listens did not throw. |
| AgentSocket.ThrowStrands | apps/dashboard/lib/use-agent-socket.ts:147-159 | After any run whose last constructor call threw, at a mount or in the reconnect callback, no continuation makes a socket or arms a timer before the last consumer leaves, and polling goes on. |
| AgentSocket.ConnectedIsTrue | apps/dashboard/lib/use-agent-socket.ts:161-224 | In every interleaving, when the connected flag is up: the current socket has opened and not delivered its close event if and only if the flag was not carried over from before the last consumer left. |
| AgentSocket.ConnectedFlagIsStale | apps/dashboard/lib/use-agent-socket.ts:161-224 | Such a carried flag: after unmounting and remounting it says connected while the only live socket is connecting. |
| AgentSocket.DelayFollowsSeries | apps/dashboard/lib/use-agent-socket.ts:138-145 | In every interleaving the next delay is the n-th of 1, 2, 4, 8, 16, 30, 30, ... seconds, n being the reconnects scheduled since a socket last opened or the last consumer left. |
| AgentSocket.OutageBacksOff | apps/dashboard/lib/use-agent-socket.ts:138-145 | Every n occurs: when n sockets in a row closed without opening, one timer is armed after the next close, polling runs, and the delay moves one on. |
| AgentSocket.RingIsRecent | apps/dashboard/lib/use-agent-socket.ts:43-49 | After every run the ring buffer is exactly the last hundred accepted events, in order. |
| Gate.GateLayer.CheckRateLimit | services/hermes/sentinel/gate.py:134-169 | The check updates exactly the client's own record, creating it on first use, as the value-level check says. |
| Gate.GateLayer.CheckState | services/hermes/sentinel/gate.py:146-169 | Blocked clients are refused untouched; otherwise the list is pruned, and either a limit trips and blocks for sixty seconds or the request is recorded. |
| Gate.SinceSince | services/hermes/sentinel/gate.py:150-158 | Filtering an already pruned list by a later or narrower window equals filtering the full list. |
| Gate.StepAgrees | services/hermes/sentinel/gate.py:146-169 | One check keeps the pruned record in agreement with the full log and gives the log's decision. |
| Gate.PrunedDecidesAsLog | services/hermes/sentinel/gate.py:134-169 | Over any run with a non-decreasing clock the pruned record admits a request exactly when the full log of all requests and decisions would. |
| Gate.AdmissionBound | services/hermes/sentinel/gate.py:134-169 | Over any run of the gate with a non-decreasing clock, other clients included, the requests of one client that the gate itself admits number at most requests_per_minute in every half-open minute and at most burst in every half-open five seconds. |
| Gate.RecordIsBounded | services/hermes/sentinel/gate.py:150-168 | The pruned list never exceeds requests_per_minute entries. |
| Gate.BlockLastsAMinute | services/hermes/sentinel/gate.py:146-166 | When a check trips a limit, every check of that client within the next sixty seconds refuses without extending the block. |
| Gate.FirstAfterBlock | services/hermes/sentinel/gate.py:146-169 | The first check at or after the end of a block admits if and only if both limits are at least one; otherwise it trips again. |
| Gate.ClientsAreIndependent | services/hermes/sentinel/gate.py:144 | In any interleaving a client's record is what its own requests alone would make it. |
| Gate.GateDecidesPerClient | services/hermes/sentinel/gate.py:134-169 | In any interleaving each request is decided by its own client's full log. |
| ProxyLimiter.KeyInjective | apps/dashboard/proxy.ts:11 | Different tiers or addresses never share a bucket. |
| ProxyLimiter.RateLimiter.RateLimit | apps/dashboard/proxy.ts:10-20 | Opens a window with count one, or counts in place and compares with the tier's limit; no other bucket changes. |
| ProxyLimiter.RateLimiter.PruneRateBuckets | apps/dashboard/proxy.ts:22-30 | At most once a window, deletes exactly the expired buckets. |
| ProxyLimiter.PruningIsInvisible | apps/dashboard/proxy.ts:22-30 | A bucket that pruning removed is one whose window had expired and stays expired; all others are as if nothing had been pruned. |
| ProxyLimiter.UnprunedBucket | apps/dashboard/proxy.ts:10-20 | Without pruning a bucket holds the start of the key's current window and the number of its requests in it. |
| ProxyLimiter.DecidesByWindow | apps/dashboard/proxy.ts:10-30 | Over any run with a non-decreasing clock, pruning included, a request is admitted exactly when it is among the first LIMIT of its tier and address in its window. |
| ProxyLimiter.RunBound | apps/dashboard/proxy.ts:10-30 | Over any run of the limiter with a non-decreasing clock, pruning included, any half-open 60-second interval admits at most 2 * LIMIT - 1 requests per tier and address. |
| ProxyLimiter.IntervalBoundByWindow | apps/dashboard/proxy.ts:10-20 | The interval count, refined by where the current window started relative to the interval. |
| ProxyLimiter.BoundIsTight | apps/dashboard/proxy.ts:10-30 | That bound is reached: for every tier and address there is a run of the limiter that admits 2 * LIMIT - 1 requests in one such interval. |
| Calendar.NextYear | services/openclaw/scripts/openclaw-npm-release-check.ts:94 | DayFromYear advances by the length of the year under the leap rule. |
| Calendar.ReadsBackExactly | services/openclaw/scripts/openclaw-npm-release-check.ts:94-101 | Building a UTC date and reading it back gives the same parts if and only if the date exists and the year is at least 100 (two-digit years are moved to the 1900s). |
| Calendar.DaysOrderDates | services/openclaw/scripts/openclaw-npm-release-check.ts:155-158 | On existing dates the time value orders exactly as year, month, day. |
| Decimal.OneSpelling | services/openclaw/scripts/openclaw-npm-release-check.ts:46-50 | Digit strings without a leading zero are equal exactly when their values are. |
| Decimal.NoDoubleBetween | services/openclaw/scripts/openclaw-npm-release-check.ts:74-77 | The spacing is right: no number with a significand of at most 53 bits lies strictly between the two neighbours of a value. |
| Decimal.RoundIsNearest | services/openclaw/scripts/openclaw-npm-release-check.ts:74-77 | A digit string reads as a double (a significand of at most 53 bits times a power of two); no double is nearer to its value, and of two equally near ones it is the one with the even significand. |
| Decimal.BitLengthIsPower | services/openclaw/scripts/openclaw-npm-release-check.ts:77-92 | The range test is right: a number has at most k bits if and only if it is below 2^k, so a value is rejected as infinite exactly when it rounds to 2^1024 or more. |
| Decimal.RoundIsExactBelow | services/openclaw/scripts/openclaw-npm-release-check.ts:77 | Reading is exact below 2^53 and never falls below 2^53 from above. |
| ReleaseVersion.MatchDateComplete | services/openclaw/scripts/openclaw-npm-release-check.ts:46-50 | The date pattern matches whenever the text allows it, and in only one way. |
| ReleaseVersion.SuffixReadsBack | services/openclaw/scripts/openclaw-npm-release-check.ts:46-50 | A recognised suffix is exactly the text that writes it. |
| ReleaseVersion.DateFromExactly | services/openclaw/scripts/openclaw-npm-release-check.ts:79-101 | A date is accepted if and only if the calendar has it and its year is at least 100. |
| ReleaseVersion.ParsedDescribes | services/openclaw/scripts/openclaw-npm-release-check.ts:115-146 | Every field of a parsed version is determined by its trimmed text: base version, date, channel, counter and time value. |
| ReleaseVersion.BaseVersionIsPrefix | services/openclaw/scripts/openclaw-npm-release-check.ts:103-112 | The base version is the text without its suffix if and only if the year is at least 1000. |
| ReleaseVersion.AcceptsExactly | services/openclaw/scripts/openclaw-npm-release-check.ts:115-146 | A version parses if and only if its trimmed text has one of the three shapes, an existing date from year 100 on and a finite counter. |
| ReleaseVersion.ComparesLexicographically | services/openclaw/scripts/openclaw-npm-release-check.ts:148-169 | The comparison is the lexicographic order of calendar date, then beta below stable, then counter. |
| ReleaseVersion.TotalOrder | services/openclaw/scripts/openclaw-npm-release-check.ts:148-169 | Comparable exactly when both parse; antisymmetric; transitive, with equality only from equality. |
| ReleaseVersion.EqualExactlyWhenSameText | services/openclaw/scripts/openclaw-npm-release-check.ts:148-169 | With counters below 2^53, versions compare equal if and only if their trimmed texts are equal. |
| ReleaseVersion.EqualUpToRounding | services/openclaw/scripts/openclaw-npm-release-check.ts:148-169 | For all counters, versions compare equal if and only if date and channel agree and the counters read as the same double. |
| ReleaseVersion.BetasCollide | services/openclaw/scripts/openclaw-npm-release-check.ts:148-169 | Failure beyond 2^53: betas numbered 2^53 and 2^53 + 1 of one date are different texts that compare equal. |
| ReleaseVersion.TwoBetasCollide | services/openclaw/scripts/openclaw-npm-release-check.ts:148-169 | Two such texts: 2026.3.1-beta.9007199254740992 and 2026.3.1-beta.9007199254740993. |
| ReleaseVersion.BetaNineParses | services/openclaw/scripts/openclaw-npm-release-check.ts:115-146 | 2026.3.1-beta.9 parses, as beta 9 of the first of March 2026. |
| SparkleBuild.LaneOf | services/openclaw/scripts/sparkle-build.ts:40-49 | The lane is at most 90, and 90 exactly when there is no suffix. |
| SparkleBuild.FloorsFromShortVersion | services/openclaw/scripts/sparkle-build.ts:14-53 | laneFloor is dateKey * 100 + lane with lane at most 90, and legacyFloor is dateKey * 10, although both are read from concatenated digits. |
| SparkleBuild.FloorsAreArithmetic | services/openclaw/scripts/sparkle-build.ts:37-38 | dateKey is year * 10000 + month * 100 + day. |
| SparkleBuild.LaneOfSuffix | services/openclaw/scripts/sparkle-build.ts:40-49 | A release suffix gives lane 90 when absent, otherwise its counter capped at 89. |
| SparkleBuild.BuildOfRelease | services/openclaw/scripts/sparkle-build.ts:55-57 | Every release version has a canonical build: its date key, then its lane. |
| SparkleBuild.BuildsOrderVersions | services/openclaw/scripts/sparkle-build.ts:14-57 | For releases without a correction number builds are monotone in the version order, strictly smaller exactly when the version is, except for two betas of one day numbered 89 or more, which are the only different versions with equal builds. |
| SparkleBuild.BuildsOrderExactly | services/openclaw/scripts/sparkle-build.ts:14-57 | For all release versions, corrections included, the builds compare as the versions do if and only if they are not two of one day that are: betas, or corrections, with different numbers of at least 89; a release and a correction; or a correction and a beta whose lane is not below the correction's. |
| SparkleBuild.CorrectionsSortBelow | services/openclaw/scripts/sparkle-build.ts:40-51 | In particular a correction compares above the stable release of its day and its build is always below. |
| OrgTree.IndexByManager | services/paperclip/scripts/generate-company-assets.ts:255-262 | The first loop collects the known slugs and, per manager key, the reports in list order. |
| OrgTree.BuildNodes | services/paperclip/scripts/generate-company-assets.ts:263-272 | The recursion terminates on every rooted key, cycles elsewhere notwithstanding, and builds the subtree. |
| OrgTree.PushOrphans | services/paperclip/scripts/generate-company-assets.ts:273-285 | The second loop appends one tree per agent whose manager is named, non-empty and unknown. |
| OrgTree.BuildOrgTree | services/paperclip/scripts/generate-company-assets.ts:254-287 | Terminates on every list with unique slugs and returns the forest. |
| OrgTree.ChainUnique | services/paperclip/scripts/generate-company-assets.ts:254-287 | An agent has at most one chain of managers up to a top agent. |
| OrgTree.ChildIsRooted | services/paperclip/scripts/generate-company-assets.ts:263-272 | Descending to a direct report uses a slug not used before, which bounds the recursion. |
| OrgTree.CountFollowsManager | services/paperclip/scripts/generate-company-assets.ts:263-272 | In a built list an agent occurs once per occurrence of its manager, plus once if it is a member itself. |
| OrgTree.AppearsExactlyOnce | services/paperclip/scripts/generate-company-assets.ts:254-287 | An identifier occurs exactly once if its manager chain ends at an agent with no manager or with a non-empty unknown one, and never otherwise. |
| OrgTree.ClosedGroupVanishes | services/paperclip/scripts/generate-company-assets.ts:263-287 | Agents managed only among themselves, cycles included, have no chain and so never appear. |
| OrgTree.ParsedAgentsAppearOnce | services/paperclip/scripts/generate-company-assets.ts:178-287 | On agents as the package parser makes them, with no empty manager slug, an agent appears exactly once if its manager chain ends and never otherwise. |
| OrgTree.EmptyManagerDrops | services/paperclip/scripts/generate-company-assets.ts:258-276 | The bare function given an empty manager slug drops the agent, where every other unknown manager makes it a root. |
| OrgTree.ReportsInOrder | services/paperclip/scripts/generate-company-assets.ts:263-271 | Below each agent stand exactly its direct reports, in list order. |
| Utf16.DecodeUndoesEncode | services/openclaw/src/utils.ts:230-236 | The UTF-16 encoding used as reference is undone by the decoding of RFC 2781. |
| Utf16.SliceUtf16Safe | services/openclaw/src/utils.ts:238-265 | Clamping, swapping and the two repairs give the slice between the repaired bounds, empty when they cross. |
| Utf16.SliceStaysClose | services/openclaw/src/utils.ts:250-264 | On any input each bound moves by at most one unit, inwards, and neither result bound cuts a surrogate pair. |
| Utf16.AfterIsBoundary | services/openclaw/src/utils.ts:250-255 | On encoded text the repaired lower bound is the start of the first scalar value at or after it. |
| Utf16.BeforeIsBoundary | services/openclaw/src/utils.ts:257-262 | On encoded text the repaired upper bound is the end of the last scalar value that fits. |
| Utf16.CountsAreExtreme | services/openclaw/src/utils.ts:238-265 | Those scalar values are the first and the last with that property. |
| Utf16.SliceIsTextSlice | services/openclaw/src/utils.ts:238-265 | For all integer start and end, negative, swapped or omitted, slicing encoded text gives the encoding of the scalar values wholly inside the clamped range. |
| Utf16.SliceKeepsWellFormed | services/openclaw/src/utils.ts:238-265 | Slicing well-formed UTF-16 gives well-formed UTF-16. |
| Utf16.TruncateUtf16Safe | services/openclaw/src/utils.ts:267-273 | Returns short input unchanged and otherwise the slice from zero to the floored, non-negative limit. |
| Utf16.TruncationKeepsWhatFits | services/openclaw/src/utils.ts:267-273 | Truncating encoded text gives the encoding of its longest prefix of scalar values that fits the limit. |
| Utf16.TruncateTwice | services/openclaw/src/utils.ts:267-273 | On any input, truncating twice is truncating once to the smaller limit. |
| DockerLogs.SizeRoundTrip | apps/dashboard/lib/docker.ts:142 | Four bytes read as a big-endian number exactly when they are that number's big-endian bytes. |
| DockerLogs.ParseDockerLogs | apps/dashboard/lib/docker.ts:137-149 | On arbitrary bytes every read is in bounds, the loop terminates, and the chunks are those of the recursive parse. |
| DockerLogs.PrefixParses | apps/dashboard/lib/docker.ts:137-149 | Any prefix of an encoded frame stream, cut anywhere, parses to exactly the payload pieces inside that prefix. |
| DockerLogs.ParseUndoesEncode | apps/dashboard/lib/docker.ts:137-149 | Parsing a whole encoded stream and joining gives the concatenation of all payloads. |
| DockerLogs.EveryBufferIsAPrefix | apps/dashboard/lib/docker.ts:137-149 | Every byte sequence is a prefix of an encoded stream, so every parse is the payload its headers announce. |
| Watermark.PatternIsFull | services/hermes/sentinel/watermark.py:103-111 | The pattern has 32 characters if and only if the 64-bit digest is at least 2^31. |
| Watermark.InjectAtFirst | services/hermes/sentinel/watermark.py:113-119 | The injection point is the end of the first period followed by a space. |
| Watermark.ApplySemanticWatermark | services/hermes/sentinel/watermark.py:123-135 | The loop applies the ten seed-chosen replacements in order. |
| Watermark.ReplaceBarrier | services/hermes/sentinel/watermark.py:133 | A character outside the searched phrase separates the replacements on its two sides. |
| Watermark.RewritingAround | services/hermes/sentinel/watermark.py:123-135 | All ten replacements leave the embedded mark intact and rewrite both sides independently. |
| Watermark.MarkSurvives | services/hermes/sentinel/watermark.py:62-70 | The watermarked prompt is the rewritten prompt with the pattern whole in one place. |
| Watermark.MarkIsInvisible | services/hermes/sentinel/watermark.py:54-79 | Without its zero-width characters the watermarked prompt is exactly the rewritten prompt. |
| Watermark.EarliestIsFirst | services/hermes/sentinel/watermark.py:154-156 | The session found is the first stored one with that pattern. |
| Watermark.RoundTrip | services/hermes/sentinel/watermark.py:54-158 | In any leak holding the watermarked prompt after text without zero-width characters, detection names a session with the same pattern, the same session when no other shares it. |
| Watermark.ShortPatternIsLost | services/hermes/sentinel/watermark.py:137-158 | With a shorter pattern zero-width detection never finds the watermarked prompt. |
| Watermark.EverySessionIsTraced | services/hermes/sentinel/watermark.py:54-158 | After any run of watermarking calls every session with a full pattern is traced from a leak of its prompt. |
| Watermark.PromptWatermark.WatermarkPrompt | services/hermes/sentinel/watermark.py:54-79 | Stores the session's pattern and seed, keeping the dictionary's order of first insertion, and returns the watermarked prompt. |
| Watermark.PromptWatermark.DetectZwc | services/hermes/sentinel/watermark.py:137-158 | The search over the stored sessions computes the detection the theorems are about. |
| ToolGuard.Guard.RecordCall | services/hermes/sentinel/tool_guard.py:258-266 | Appends to the session's own history and keeps its last fifty calls; other sessions are unchanged. |
| ToolGuard.Guard.CheckToolCall | services/hermes/sentinel/tool_guard.py:115-160 | A rejected call leaves the history alone; any other is recorded before the chain check, blocked or not. |
| ToolGuard.HistoryIsRecentLog | services/hermes/sentinel/tool_guard.py:258-266 | After any interleaving a session's history is the last fifty of its recorded calls. |
| ToolGuard.VerdictIsUnbounded | services/hermes/sentinel/tool_guard.py:235-266 | The verdict on a call equals the verdict on its session's unbounded log; other sessions have no influence. |
| ToolGuard.MatchesIsDangerous | services/hermes/sentinel/tool_guard.py:244-248 | The comprehension-based test says exactly: both tools occur, and less than sixty seconds lie between the first and the last call of either. |
| ToolGuard.BlockedExactly | services/hermes/sentinel/tool_guard.py:235-256 | A call is blocked if and only if some listed combination is dangerous among the last five calls including it; the first listed one gives severity and reason text. |
| ToolGuard.AllowedLeavesNoChain | services/hermes/sentinel/tool_guard.py:153-160 | An allowed call never leaves a dangerous combination among its session's last five recorded calls. |

## Left out

- OrgTree.BuildOrgTree: is stated for unique slugs, which the only caller guarantees because slugs are directory names; with repeated slugs the code's recursion need not end.
- Relocation.InsidePreserved: file modes, symbolic links and deletion of the copy are not modelled; the copy is read through the same path resolution as the original.
- ReleaseVersion.ParsedDescribes: the Date object of a parsed version is modelled by its time value.
- Utf16.TruncateUtf16Safe: limits that are NaN or infinite are not modelled, since the limit is a real number.
- AgentSocket.EveryInterleaving: listener notification and the unused polling consumer count are not modelled; the URL is fixed for a run, as a build-time constant is.
- Import specifier extraction by regular expression: the list of specifiers per file is an input.
- Loading the copied module through bun or jiti, and choosing the exported schema: process and module loading.
- Text decoding of Docker chunks: the parser's bytes are modelled, a multi-byte character split over two frames is not.
- Allowlists, blocklists and TLS in gate.py, and the routing around the limiter in proxy.ts: single conditions before or after the limiter.
- Watermark detection by semantic choices and by n-grams: the packed bits do not reconstruct the seed, so nothing is claimed about them.
- Path, command and network checks of tool_guard.py: pattern matching, whose outcome is an input.
- Encryption, provisioning, billing, messaging and user interface code: network clients and foreign formats without local invariants.
